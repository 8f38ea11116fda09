/** The gossip handlers' decisions: each reads the store, answers 404 or 403
    or 400 before touching anything, and otherwise performs one service
    operation. The requester is the authenticated user's id. The routers of
    this revision import a differently named gossip controller, so no route
    reaches these handlers; they are modelled as written. */
module GossipsController {
  import opened Wrappers
  import opened Models
  import opened Http
  import GossipsRepo
  import GossipsQueryRepo
  import GossipsService
  import Store

  /** `readGossip`: 404 for a missing gossip, otherwise 200 and the gossip. */
  function ReadGossip(db: Db, gid: Id): (r: Response)
    ensures r.status == NOT_FOUND_404 <==> gid !in db.gossips
    ensures r.status == OK_200 <==> gid in db.gossips
  {
    match GossipsQueryRepo.FindGossipById(db, gid)
    case None => Response(NOT_FOUND_404, Message("Gossip not found"))
    case Some(g) => Response(OK_200, GossipBody(g))
  }

  lemma ReadGossipAnswers(db: Db, gid: Id)
    ensures ReadGossip(db, gid).status == NOT_FOUND_404 <==> gid !in db.gossips
    ensures gid in db.gossips ==> ReadGossip(db, gid) == Response(OK_200, GossipBody(db.gossips[gid]))
  {
  }

  /** `updateGossip`: 404 for a missing gossip and 403 for a requester who is
      not its author, both leaving the store as it was; otherwise the update
      and 201 with the updated gossip. */
  method UpdateGossip(store: Store.Store, requester: Id, gid: Id, content: string, imageUrl: Option<string>)
    returns (resp: Response)
    modifies store
    ensures resp.status == NOT_FOUND_404 <==> gid !in old(store.gossips)
    ensures resp.status == FORBIDDEN_403 <==> gid in old(store.gossips) && old(store.gossips[gid].author) != requester
    ensures resp.status in {NOT_FOUND_404, FORBIDDEN_403} ==> store.Snapshot() == old(store.Snapshot())
    ensures resp.status !in {NOT_FOUND_404, FORBIDDEN_403} ==>
      (resp.status == CREATED_201
      && resp.body.UpdatedGossip? && (store.Snapshot(), resp.body.updated) == GossipsRepo.UpdateGossip(old(store.Snapshot()), gid, content, imageUrl))
    ensures old(Valid(store.Snapshot())) ==> Valid(store.Snapshot())
    ensures old(Consistent(store.Snapshot())) ==> Consistent(store.Snapshot())
  {
    var gossip := GossipsRepo.FindGossipById(store.Snapshot(), gid);
    if gossip.None? {
      return Response(NOT_FOUND_404, Message("Gossip not found"));
    }
    SameIdStringIff(requester, gossip.value.author);
    if !SameIdString(requester, gossip.value.author) {
      return Response(FORBIDDEN_403, Message("Forbidden"));
    }
    var updated := GossipsService.UpdateGossip(store, gid, content, imageUrl);
    resp := Response(CREATED_201, UpdatedGossip(updated));
  }

  /** `likeGossip`: 404 for a missing gossip, 400 when the requester already
      likes it, both leaving the store as it was; otherwise the like and 200.
      The author is not kept from liking their own gossip. */
  method LikeGossip(store: Store.Store, requester: Id, gid: Id) returns (resp: Response)
    modifies store
    ensures resp.status == NOT_FOUND_404 <==> gid !in old(store.gossips)
    ensures resp.status == BAD_REQUEST_400 <==> gid in old(store.gossips) && requester in old(store.gossips[gid].likes)
    ensures resp.status == OK_200 <==> gid in old(store.gossips) && requester !in old(store.gossips[gid].likes)
    ensures resp.status != OK_200 ==> store.Snapshot() == old(store.Snapshot())
    ensures resp.status == OK_200 ==> store.Snapshot() == GossipsRepo.LikeGossip(old(store.Snapshot()), requester, gid).0
    ensures old(Valid(store.Snapshot())) ==> Valid(store.Snapshot())
    ensures old(Consistent(store.Snapshot())) && requester in old(store.users) ==> Consistent(store.Snapshot())
  {
    var gossip := GossipsRepo.FindGossipById(store.Snapshot(), gid);
    if gossip.None? {
      return Response(NOT_FOUND_404, Message("Gossip not found"));
    }
    if requester in gossip.value.likes {
      return Response(BAD_REQUEST_400, Message("This gossip have already been liked"));
    }
    var _ := GossipsService.LikeGossip(store, requester, gid);
    resp := Response(OK_200, Message("Liked"));
  }

  /** `unlikeGossip`: 404 for a missing gossip, 400 when the requester does
      not like it, both leaving the store as it was; otherwise the unlike and
      200. */
  method UnlikeGossip(store: Store.Store, requester: Id, gid: Id) returns (resp: Response)
    modifies store
    ensures resp.status == NOT_FOUND_404 <==> gid !in old(store.gossips)
    ensures resp.status == BAD_REQUEST_400 <==> gid in old(store.gossips) && requester !in old(store.gossips[gid].likes)
    ensures resp.status == OK_200 <==> gid in old(store.gossips) && requester in old(store.gossips[gid].likes)
    ensures resp.status != OK_200 ==> store.Snapshot() == old(store.Snapshot())
    ensures resp.status == OK_200 ==> store.Snapshot() == GossipsRepo.UnlikeGossip(old(store.Snapshot()), requester, gid).0
    ensures old(Valid(store.Snapshot())) ==> Valid(store.Snapshot())
    ensures old(Consistent(store.Snapshot())) ==> Consistent(store.Snapshot())
  {
    var gossip := GossipsRepo.FindGossipById(store.Snapshot(), gid);
    if gossip.None? {
      return Response(NOT_FOUND_404, Message("Gossip not found"));
    }
    if requester !in gossip.value.likes {
      return Response(BAD_REQUEST_400, Message("This gossip haven't liked yet"));
    }
    var _ := GossipsService.UnlikeGossip(store, requester, gid);
    resp := Response(OK_200, Message("This gossip is no more liked"));
  }

  /** `deleteGossip`: 404 for a missing gossip and 403 for a requester who is
      not its author, both leaving the store as it was; otherwise the
      cascading delete and 200 with the deleted gossip. */
  method DeleteGossip(store: Store.Store, requester: Id, gid: Id) returns (resp: Response)
    modifies store
    ensures resp.status == NOT_FOUND_404 <==> gid !in old(store.gossips)
    ensures resp.status == FORBIDDEN_403 <==> gid in old(store.gossips) && old(store.gossips[gid].author) != requester
    ensures resp.status != OK_200 ==> store.Snapshot() == old(store.Snapshot())
    ensures resp.status == OK_200 ==>
      (resp.body == DeletedGossip("Gossip deleted", Some(old(store.gossips[gid])))
      && store.Snapshot() == GossipsRepo.DeleteAndDissociateFromUser(old(store.Snapshot()), gid).0
      && gid !in store.gossips)
    ensures old(Valid(store.Snapshot())) ==> Valid(store.Snapshot())
    ensures old(Consistent(store.Snapshot())) ==> Consistent(store.Snapshot())
  {
    var gossip := GossipsRepo.FindGossipById(store.Snapshot(), gid);
    if gossip.None? {
      return Response(NOT_FOUND_404, Message("Gossip not found"));
    }
    SameIdStringIff(gossip.value.author, requester);
    if !SameIdString(gossip.value.author, requester) {
      return Response(FORBIDDEN_403, Message("You are not authorized to delete this gossip"));
    }
    ghost var db := store.Snapshot();
    var deleted := GossipsService.DeleteGossip(store, gid);
    GossipsRepo.DeleteCascadeComplete(db, gid);
    resp := Response(OK_200, DeletedGossip("Gossip deleted", deleted));
  }
}
