/** The comment handlers' decisions: 404, 403 or 400 before any change,
    otherwise one service operation. */
module CommentsController {
  import opened Wrappers
  import opened Models
  import opened Http
  import CommentsRepo
  import CommentsService
  import Store

  /** `createComment`: 404 for a missing gossip, creating nothing; otherwise
      the comment is created under the resolved parent and answered with 201.
      The requester is the authenticated user's id, which a stored user
      always has, so the handler's `!author` guard never fires. */
  method CreateComment(store: Store.Store, requester: Id, gossipId: Id, content: string,
                       parent: Option<Id>, now: Time) returns (resp: Response)
    modifies store
    ensures resp.status == NOT_FOUND_404 <==> gossipId !in old(store.gossips)
    ensures resp.status == CREATED_201 <==> gossipId in old(store.gossips)
    ensures resp.status != CREATED_201 ==> store.Snapshot() == old(store.Snapshot())
    ensures resp.status == CREATED_201 ==>
      (resp.body.CommentBody?
      && (store.Snapshot(), resp.body.comment) == CommentsRepo.CreateAndAssociateWithUserAndGossip(old(store.Snapshot()),
        CommentsService.CommentRecord(requester, gossipId, content, CommentsService.ResolveParent(old(store.Snapshot()), parent)), now))
    ensures old(Valid(store.Snapshot())) ==> Valid(store.Snapshot())
    ensures old(Valid(store.Snapshot()) && Consistent(store.Snapshot())) && requester in old(store.users)
      ==> Consistent(store.Snapshot())
  {
    var gossip := if gossipId in store.gossips then Some(store.gossips[gossipId]) else None;
    if gossip.None? {
      return Response(NOT_FOUND_404, Message("Gossip not found"));
    }
    var created := CommentsService.CreateComment(store, requester, gossipId, content, parent, now);
    resp := Response(CREATED_201, CommentBody(created));
  }

  /** `likeComment`: 404 for a missing comment and 400 when the requester
      already likes it, both leaving the store as it was; otherwise the like
      and 200. */
  method LikeComment(store: Store.Store, requester: Id, cid: Id) returns (resp: Response)
    modifies store
    ensures resp.status == NOT_FOUND_404 <==> cid !in old(store.comments)
    ensures resp.status == BAD_REQUEST_400 <==> cid in old(store.comments) && requester in old(store.comments[cid].likes)
    ensures resp.status == OK_200 <==> cid in old(store.comments) && requester !in old(store.comments[cid].likes)
    ensures resp.status != OK_200 ==> store.Snapshot() == old(store.Snapshot())
    ensures resp.status == OK_200 ==> store.Snapshot() == CommentsRepo.LikeComment(old(store.Snapshot()), requester, cid)
    ensures old(Valid(store.Snapshot())) ==> Valid(store.Snapshot())
    ensures old(Consistent(store.Snapshot())) && requester in old(store.users) ==> Consistent(store.Snapshot())
  {
    var comment := CommentsRepo.FindCommentById(store.Snapshot(), cid);
    if comment.None? {
      return Response(NOT_FOUND_404, Message("Comment not found"));
    }
    if requester in comment.value.likes {
      return Response(BAD_REQUEST_400, Message("This comment have already been liked"));
    }
    var _ := CommentsService.LikeComment(store, requester, cid);
    resp := Response(OK_200, Message("Liked"));
  }

  /** `unlikeComment`: 404 for a missing comment and 400 when the requester
      does not like it, both leaving the store as it was; otherwise the
      unlike and 200. */
  method UnlikeComment(store: Store.Store, requester: Id, cid: Id) returns (resp: Response)
    modifies store
    ensures resp.status == NOT_FOUND_404 <==> cid !in old(store.comments)
    ensures resp.status == BAD_REQUEST_400 <==> cid in old(store.comments) && requester !in old(store.comments[cid].likes)
    ensures resp.status == OK_200 <==> cid in old(store.comments) && requester in old(store.comments[cid].likes)
    ensures resp.status != OK_200 ==> store.Snapshot() == old(store.Snapshot())
    ensures resp.status == OK_200 ==> store.Snapshot() == CommentsRepo.UnlikeComment(old(store.Snapshot()), requester, cid)
    ensures old(Valid(store.Snapshot())) ==> Valid(store.Snapshot())
    ensures old(Consistent(store.Snapshot())) ==> Consistent(store.Snapshot())
  {
    var comment := CommentsRepo.FindCommentById(store.Snapshot(), cid);
    if comment.None? {
      return Response(NOT_FOUND_404, Message("Comment not found"));
    }
    if requester !in comment.value.likes {
      return Response(BAD_REQUEST_400, Message("This comment haven't liked yet"));
    }
    var _ := CommentsService.UnlikeComment(store, requester, cid);
    resp := Response(OK_200, Message("This comment is no more liked"));
  }

  /** `deleteComment`: 404 for a missing comment and 403 for a requester who
      is not its author, both leaving the store as it was; otherwise the
      delete and 200 with the deleted comment. */
  method DeleteComment(store: Store.Store, requester: Id, cid: Id) returns (resp: Response)
    modifies store
    ensures resp.status == NOT_FOUND_404 <==> cid !in old(store.comments)
    ensures resp.status == FORBIDDEN_403 <==> cid in old(store.comments) && old(store.comments[cid].author) != requester
    ensures resp.status != OK_200 ==> store.Snapshot() == old(store.Snapshot())
    ensures resp.status == OK_200 ==>
      (resp.body == DeletedComment("Comment deleted", Some(old(store.comments[cid])))
      && store.Snapshot() == CommentsRepo.DeleteAndDissociateFromUserAndGossip(old(store.Snapshot()), cid).0
      && cid !in store.comments)
    ensures old(Valid(store.Snapshot())) ==> Valid(store.Snapshot())
    ensures old(Consistent(store.Snapshot())) ==> Consistent(store.Snapshot())
  {
    var comment := CommentsRepo.FindCommentById(store.Snapshot(), cid);
    if comment.None? {
      return Response(NOT_FOUND_404, Message("Comment not found"));
    }
    SameIdStringIff(comment.value.author, requester);
    if !SameIdString(comment.value.author, requester) {
      return Response(FORBIDDEN_403, Message("You are not authorized to delete this comment"));
    }
    var deleted := CommentsService.DeleteComment(store, cid);
    resp := Response(OK_200, DeletedComment("Comment deleted", deleted));
  }
}
