/** The unified like endpoints: an `itemType` of exactly "Comment" or
    "Gossip" picks the table, anything else is a 400 that touches nothing.
    Unlike the per-item handlers, these do no already-liked check. */
module LikesController {
  import opened Wrappers
  import opened Models
  import opened Http
  import CommentsRepo
  import GossipsRepo
  import CommentsService
  import GossipsService
  import Store

  predicate KnownItemType(itemType: string) {
    itemType == "Comment" || itemType == "Gossip"
  }

  /** `getItemLikes`: 400 for another item type, 404 for a missing item,
      otherwise 200 and the item's likes. */
  function GetItemLikes(db: Db, id: Id, itemType: string): (r: Response)
    ensures r.status == BAD_REQUEST_400 <==> !KnownItemType(itemType)
    ensures r.status == OK_200 <==> r.body.Likes?
  {
    if itemType == "Comment" then
      match CommentsRepo.FindCommentById(db, id)
      case None => Response(NOT_FOUND_404, Message("Comment not found"))
      case Some(c) => Response(OK_200, Likes(c.likes))
    else if itemType == "Gossip" then
      match GossipsRepo.FindGossipById(db, id)
      case None => Response(NOT_FOUND_404, Message("Gossip not found"))
      case Some(g) => Response(OK_200, Likes(g.likes))
    else Response(BAD_REQUEST_400, Message("Wrong item type"))
  }

  /** The answer names the item's likes exactly when the type is known and
      the item is stored. */
  lemma GetItemLikesAnswers(db: Db, id: Id, itemType: string)
    ensures var r := GetItemLikes(db, id, itemType);
      && (r.status == BAD_REQUEST_400 <==> !KnownItemType(itemType))
      && (r.status == NOT_FOUND_404 <==>
        (itemType == "Comment" && id !in db.comments) || (itemType == "Gossip" && id !in db.gossips))
      && (itemType == "Comment" && id in db.comments ==> r == Response(OK_200, Likes(db.comments[id].likes)))
      && (itemType == "Gossip" && id in db.gossips ==> r == Response(OK_200, Likes(db.gossips[id].likes)))
  {
  }

  /** The likes the endpoint lists agree with the likers' own lists in a
      consistent store: each listed user is stored and lists the item back. */
  lemma GetItemLikesMirrored(db: Db, id: Id, itemType: string)
    requires GossipLikes(db) && CommentLikes(db)
    ensures var r := GetItemLikes(db, id, itemType);
      r.status == OK_200 ==> (r.body.Likes? && forall u :: u in r.body.ids ==>
        u in db.users
        && (itemType == "Comment" ==> id in db.users[u].likedComments)
        && (itemType == "Gossip" ==> id in db.users[u].likedGossips))
  {
    if itemType == "Comment" && id in db.comments {
      assert GetItemLikes(db, id, itemType).body.ids == db.comments[id].likes;
    } else if itemType == "Gossip" && id in db.gossips {
      assert GetItemLikes(db, id, itemType).body.ids == db.gossips[id].likes;
    }
  }

  /** `likeItem` as written. The comment service forwards an operation that
      answers nothing, so for "Comment" the handler always answers 404 with
      "Comment not found", although the like has been applied. */
  method LikeItem(store: Store.Store, requester: Id, id: Id, itemType: string) returns (resp: Response)
    modifies store
    ensures !KnownItemType(itemType) ==> resp.status == BAD_REQUEST_400 && store.Snapshot() == old(store.Snapshot())
    ensures itemType == "Comment" ==>
      (resp.status == NOT_FOUND_404 && store.Snapshot() == CommentsRepo.LikeComment(old(store.Snapshot()), requester, id))
    ensures itemType == "Gossip" ==>
      ((store.Snapshot(), if resp.status == OK_200 && resp.body.Likes? then Some(resp.body.ids) else None)
        == GossipsRepo.LikeGossip(old(store.Snapshot()), requester, id)
      && (resp.status == OK_200 <==> id in old(store.gossips))
      && (resp.status == OK_200 ==> resp.body.Likes?))
    ensures old(Valid(store.Snapshot())) ==> Valid(store.Snapshot())
    ensures old(Consistent(store.Snapshot())) && requester in old(store.users) ==> Consistent(store.Snapshot())
  {
    ghost var db := store.Snapshot();
    if Valid(db) {
      CommentsRepo.LikeKeepsValid(db, requester, id);
      GossipsRepo.LikeKeepsValid(db, requester, id);
    }
    if Consistent(db) && requester in db.users {
      CommentsRepo.LikeKeepsConsistent(db, requester, id);
      GossipsRepo.LikeKeepsConsistent(db, requester, id);
    }
    var likesList: Option<seq<Id>>;
    if itemType == "Comment" {
      likesList := CommentsService.LikeComment(store, requester, id);
    } else if itemType == "Gossip" {
      likesList := GossipsService.LikeGossip(store, requester, id);
    } else {
      return Response(BAD_REQUEST_400, Message("Wrong item type"));
    }
    if likesList.None? {
      return Response(NOT_FOUND_404, Message(itemType + " not found"));
    }
    resp := Response(OK_200, Likes(likesList.value));
  }

  /** `unlikeItem` as written, with the same 404 for every comment. */
  method UnlikeItem(store: Store.Store, requester: Id, id: Id, itemType: string) returns (resp: Response)
    modifies store
    ensures !KnownItemType(itemType) ==> resp.status == BAD_REQUEST_400 && store.Snapshot() == old(store.Snapshot())
    ensures itemType == "Comment" ==>
      (resp.status == NOT_FOUND_404 && store.Snapshot() == CommentsRepo.UnlikeComment(old(store.Snapshot()), requester, id))
    ensures itemType == "Gossip" ==>
      ((store.Snapshot(), if resp.status == OK_200 && resp.body.Likes? then Some(resp.body.ids) else None)
        == GossipsRepo.UnlikeGossip(old(store.Snapshot()), requester, id)
      && (resp.status == OK_200 <==> id in old(store.gossips))
      && (resp.status == OK_200 ==> resp.body.Likes?))
    ensures old(Valid(store.Snapshot())) ==> Valid(store.Snapshot())
    ensures old(Consistent(store.Snapshot())) && requester in old(store.users) ==> Consistent(store.Snapshot())
  {
    ghost var db := store.Snapshot();
    if Valid(db) {
      CommentsRepo.UnlikeKeepsValid(db, requester, id);
      GossipsRepo.UnlikeKeepsValid(db, requester, id);
    }
    if Consistent(db) && requester in db.users {
      CommentsRepo.UnlikeKeepsConsistent(db, requester, id);
      GossipsRepo.UnlikeKeepsConsistent(db, requester, id);
    }
    var likesList: Option<seq<Id>>;
    if itemType == "Comment" {
      likesList := CommentsService.UnlikeComment(store, requester, id);
    } else if itemType == "Gossip" {
      likesList := GossipsService.UnlikeGossip(store, requester, id);
    } else {
      return Response(BAD_REQUEST_400, Message("Wrong item type"));
    }
    if likesList.None? {
      return Response(NOT_FOUND_404, Message(itemType + " not found"));
    }
    resp := Response(OK_200, Likes(likesList.value));
  }

  /** The 404 above is not a no-op: liking a stored comment the requester
      does not yet like changes the store. */
  lemma LikeCommentChangesStore(db: Db, user: Id, cid: Id)
    requires cid in db.comments && user !in db.comments[cid].likes
    ensures CommentsRepo.LikeComment(db, user, cid) != db
  {
    assert user in CommentsRepo.LikeComment(db, user, cid).comments[cid].likes;
  }

  /** Likewise unliking a comment the requester likes. */
  lemma UnlikeCommentChangesStore(db: Db, user: Id, cid: Id)
    requires cid in db.comments && user in db.comments[cid].likes
    ensures CommentsRepo.UnlikeComment(db, user, cid) != db
  {
    assert user !in CommentsRepo.UnlikeComment(db, user, cid).comments[cid].likes;
  }

  /** `likeItem` as evidently intended: a comment is answered like a gossip,
      404 exactly when it is missing and otherwise 200 with its likes. */
  method LikeItemCorrected(store: Store.Store, requester: Id, id: Id, itemType: string) returns (resp: Response)
    modifies store
    ensures !KnownItemType(itemType) ==> resp.status == BAD_REQUEST_400 && store.Snapshot() == old(store.Snapshot())
    ensures itemType == "Comment" ==>
      (store.Snapshot() == CommentsRepo.LikeComment(old(store.Snapshot()), requester, id)
      && (resp.status == NOT_FOUND_404 <==> id !in old(store.comments))
      && (resp.status != NOT_FOUND_404 ==> (resp.status == OK_200 && id in store.comments
        && resp == Response(OK_200, Likes(store.comments[id].likes)) && requester in resp.body.ids)))
    ensures itemType == "Gossip" ==>
      ((store.Snapshot(), if resp.status == OK_200 && resp.body.Likes? then Some(resp.body.ids) else None)
        == GossipsRepo.LikeGossip(old(store.Snapshot()), requester, id)
      && (resp.status == OK_200 <==> id in old(store.gossips))
      && (resp.status == OK_200 ==> resp.body.Likes?))
    ensures old(Valid(store.Snapshot())) ==> Valid(store.Snapshot())
    ensures old(Consistent(store.Snapshot())) && requester in old(store.users) ==> Consistent(store.Snapshot())
  {
    ghost var db := store.Snapshot();
    if Valid(db) {
      CommentsRepo.LikeKeepsValid(db, requester, id);
      GossipsRepo.LikeKeepsValid(db, requester, id);
    }
    if Consistent(db) && requester in db.users {
      CommentsRepo.LikeKeepsConsistent(db, requester, id);
      GossipsRepo.LikeKeepsConsistent(db, requester, id);
    }
    var likesList: Option<seq<Id>>;
    if itemType == "Comment" {
      likesList := CommentsService.LikeCommentListing(store, requester, id);
    } else if itemType == "Gossip" {
      likesList := GossipsService.LikeGossip(store, requester, id);
    } else {
      return Response(BAD_REQUEST_400, Message("Wrong item type"));
    }
    if likesList.None? {
      return Response(NOT_FOUND_404, Message(itemType + " not found"));
    }
    resp := Response(OK_200, Likes(likesList.value));
  }

  /** `unlikeItem` as evidently intended. */
  method UnlikeItemCorrected(store: Store.Store, requester: Id, id: Id, itemType: string) returns (resp: Response)
    modifies store
    ensures !KnownItemType(itemType) ==> resp.status == BAD_REQUEST_400 && store.Snapshot() == old(store.Snapshot())
    ensures itemType == "Comment" ==>
      (store.Snapshot() == CommentsRepo.UnlikeComment(old(store.Snapshot()), requester, id)
      && (resp.status == NOT_FOUND_404 <==> id !in old(store.comments))
      && (resp.status != NOT_FOUND_404 ==> (resp.status == OK_200 && id in store.comments
        && resp == Response(OK_200, Likes(store.comments[id].likes)) && requester !in resp.body.ids)))
    ensures itemType == "Gossip" ==>
      ((store.Snapshot(), if resp.status == OK_200 && resp.body.Likes? then Some(resp.body.ids) else None)
        == GossipsRepo.UnlikeGossip(old(store.Snapshot()), requester, id)
      && (resp.status == OK_200 <==> id in old(store.gossips))
      && (resp.status == OK_200 ==> resp.body.Likes?))
    ensures old(Valid(store.Snapshot())) ==> Valid(store.Snapshot())
    ensures old(Consistent(store.Snapshot())) && requester in old(store.users) ==> Consistent(store.Snapshot())
  {
    ghost var db := store.Snapshot();
    if Valid(db) {
      CommentsRepo.UnlikeKeepsValid(db, requester, id);
      GossipsRepo.UnlikeKeepsValid(db, requester, id);
    }
    if Consistent(db) && requester in db.users {
      CommentsRepo.UnlikeKeepsConsistent(db, requester, id);
      GossipsRepo.UnlikeKeepsConsistent(db, requester, id);
    }
    var likesList: Option<seq<Id>>;
    if itemType == "Comment" {
      likesList := CommentsService.UnlikeCommentListing(store, requester, id);
    } else if itemType == "Gossip" {
      likesList := GossipsService.UnlikeGossip(store, requester, id);
    } else {
      return Response(BAD_REQUEST_400, Message("Wrong item type"));
    }
    if likesList.None? {
      return Response(NOT_FOUND_404, Message(itemType + " not found"));
    }
    resp := Response(OK_200, Likes(likesList.value));
  }
}
