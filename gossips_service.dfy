/** The gossip service: builds the record a new gossip is stored as,
    filters update operations, and forwards to the repository. The image
    upload and delete in object storage are not part of this model; an
    upload is represented by the name storage gave the file. */
module GossipsService {
  import opened Wrappers
  import opened Models
  import GossipsRepo
  import Store

  /** An uploaded image file. */
  datatype Upload = Upload(filename: string, mimetype: string)

  /** The stored image name: the name object storage gave the file, or None
      when no file came with the request. */
  function ImageName(file: Option<Upload>, storedName: Upload -> string): (r: Option<string>)
    ensures r.None? <==> file.None?
    ensures file.Some? ==> r == Some(storedName(file.value))
  {
    if file.Some? then Some(storedName(file.value)) else None
  }

  /** The record `createGossip` hands to the repository. */
  function GossipRecord(author: Id, title: string, content: string, imageName: Option<string>): (r: GossipInput)
    ensures r.comments == [] && r.likes == []
    ensures r.author == author && r.title == title && r.content == content && r.imageName == imageName
  {
    GossipInput(title, content, imageName, author, [], [])
  }

  /** `createGossip`: stores a gossip with no comments and no likes, listed
      last among its author's gossips. */
  method CreateGossip(store: Store.Store, author: Id, title: string, content: string,
                      file: Option<Upload>, storedName: Upload -> string, now: Time) returns (g: Gossip)
    modifies store
    ensures (store.Snapshot(), g) == GossipsRepo.CreateAndAssociateWithUser(
      old(store.Snapshot()), GossipRecord(author, title, content, ImageName(file, storedName)), now)
    ensures g.comments == [] && g.likes == [] && g.author == author && g.title == title && g.content == content
    ensures g.imageName.None? <==> file.None?
    ensures old(Valid(store.Snapshot())) ==> Valid(store.Snapshot())
    ensures old(Valid(store.Snapshot()) && Consistent(store.Snapshot())) && author in old(store.users) ==>
      Consistent(store.Snapshot())
  {
    ghost var db := store.Snapshot();
    var imageName := None;
    if file.Some? {
      imageName := Some(storedName(file.value));
    }
    var record := GossipInput(title, content, imageName, author, [], []);
    g := store.CreateGossip(record, now);
    if Valid(db) {
      GossipsRepo.CreateKeepsValid(db, record, now);
      if Consistent(db) && author in db.users {
        GossipsRepo.CreateKeepsConsistent(db, record, now);
      }
    }
  }

  /** `updateGossip`: forwards only `content` and `imageUrl`. */
  method UpdateGossip(store: Store.Store, gid: Id, content: string, imageUrl: Option<string>) returns (r: Option<Gossip>)
    modifies store
    ensures (store.Snapshot(), r) == GossipsRepo.UpdateGossip(old(store.Snapshot()), gid, content, imageUrl)
    ensures r.Some? <==> gid in old(store.gossips)
    ensures r.Some? ==> (r.value.title == old(store.gossips[gid].title) && r.value.author == old(store.gossips[gid].author)
      && r.value.comments == old(store.gossips[gid].comments) && r.value.likes == old(store.gossips[gid].likes))
    ensures old(Valid(store.Snapshot())) ==> Valid(store.Snapshot())
    ensures old(Consistent(store.Snapshot())) ==> Consistent(store.Snapshot())
  {
    ghost var db := store.Snapshot();
    r := store.UpdateGossip(gid, content, imageUrl);
    if gid in db.gossips {
      GossipsRepo.UpdateGossipFields(db, gid, content, imageUrl);
    }
    if Valid(db) {
      GossipsRepo.UpdateGossipKeepsValid(db, gid, content, imageUrl);
    }
    if Consistent(db) {
      GossipsRepo.UpdateGossipKeepsConsistent(db, gid, content, imageUrl);
    }
  }

  /** `likeGossip`: the repository's answer, the gossip's likes or None. */
  method LikeGossip(store: Store.Store, author: Id, gid: Id) returns (r: Option<seq<Id>>)
    modifies store
    ensures (store.Snapshot(), r) == GossipsRepo.LikeGossip(old(store.Snapshot()), author, gid)
    ensures old(Valid(store.Snapshot())) ==> Valid(store.Snapshot())
    ensures old(Consistent(store.Snapshot())) && author in old(store.users) ==> Consistent(store.Snapshot())
  {
    ghost var db := store.Snapshot();
    r := store.LikeGossip(author, gid);
    if Valid(db) {
      GossipsRepo.LikeKeepsValid(db, author, gid);
    }
    if Consistent(db) && author in db.users {
      GossipsRepo.LikeKeepsConsistent(db, author, gid);
    }
  }

  /** `unlikeGossip`: the repository's answer, the gossip's likes or None. */
  method UnlikeGossip(store: Store.Store, author: Id, gid: Id) returns (r: Option<seq<Id>>)
    modifies store
    ensures (store.Snapshot(), r) == GossipsRepo.UnlikeGossip(old(store.Snapshot()), author, gid)
    ensures old(Valid(store.Snapshot())) ==> Valid(store.Snapshot())
    ensures old(Consistent(store.Snapshot())) ==> Consistent(store.Snapshot())
  {
    ghost var db := store.Snapshot();
    r := store.UnlikeGossip(author, gid);
    if Valid(db) {
      GossipsRepo.UnlikeKeepsValid(db, author, gid);
    }
    if Consistent(db) {
      GossipsRepo.UnlikeKeepsConsistent(db, author, gid);
    }
  }

  /** `deleteGossip`: None and no change for a missing gossip; otherwise
      the cascading delete and the gossip as it was. */
  method DeleteGossip(store: Store.Store, gid: Id) returns (r: Option<Gossip>)
    modifies store
    ensures (store.Snapshot(), r) == GossipsRepo.DeleteAndDissociateFromUser(old(store.Snapshot()), gid)
    ensures r.None? <==> gid !in old(store.gossips)
    ensures r.None? ==> store.Snapshot() == old(store.Snapshot())
    ensures old(Valid(store.Snapshot())) ==> Valid(store.Snapshot())
    ensures old(Consistent(store.Snapshot())) ==> Consistent(store.Snapshot())
  {
    ghost var db := store.Snapshot();
    var found := GossipsRepo.FindGossipById(store.Snapshot(), gid);
    if found.None? {
      return None;
    }
    r := store.DeleteGossip(gid);
    if Valid(db) {
      GossipsRepo.DeleteKeepsValid(db, gid);
    }
    if Consistent(db) {
      GossipsRepo.DeleteKeepsConsistent(db, gid);
    }
  }
}
