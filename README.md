# Gossip back-end: entity store and request guards

This project models the core of the gossip back-end, a REST service where
users post gossips, comment on them, reply to comments and like both. It
has three parts.

- **The store.** Four id-keyed tables hold users, gossips, comments and
  e-mail verification tokens (`Models.Db`). Authorship and likes are kept as
  id lists on both sides: a gossip has `likes` and `comments`; a user has
  `gossips`, `comments`, `likedGossips` and `likedComments`. The
  repositories become pure functions over `Db`:
  - `GossipsRepo`, `CommentsRepo`, `UsersRepo` and `TokensRepo` hold the
    create, update, like, unlike and delete operations, including the
    cascading deletes;
  - `GossipsQueryRepo`, `CommentsQueryRepo` and `UsersQueryRepo` hold the
    paged listings.

  `Store.Store` is a class whose four table fields its methods reassign.
  Each method is proved equal to the repository function it calls.
- **The services.** Each is a method over a `Store.Store`.
  - `GossipsService` builds gossip records and handles the image name.
  - `CommentsService` applies the one-step parent collapse that caps reply
    depth at two, and builds the comment view model.
  - `UsersService` builds user records and checks credentials.
- **The request guards.**
  - The controllers (`GossipsController`, `CommentsController`,
    `LikesController`, `UsersController`) choose a status code. They check
    not-found, ownership and already-liked / not-yet-liked before any
    mutation.
  - The middlewares `TokenValidator` (the `Authorization: Bearer` header,
    then the refresh cookie) and `UserPermission` (requester id against the
    path id) produce a trace of effects.

Two store invariants are proved to be kept:

- `Models.Valid`: every record sits under its own id; reply depth is at
  most two; e-mails are lower-cased and unique.
- `Models.Consistent`: every like, authorship and thread link exists on
  both sides and names an existing record.

Every gossip, comment, like and token operation keeps `Valid`, and so does
every handler. They keep `Consistent` too, provided that the requester or
author of a like or a create is a stored user. User deletion is the
exception: it keeps only `Valid`. It does not cascade, and lemmas show
that it can leave dangling references.

Things the source leaves to libraries become parameters:

- password hashing and comparison (`saltedHash`, `compare`);
- JWT verification (`verifyAccess`, `verifyRefresh`, each returning an id,
  a rejection or an exception); `TokenValidator.VerifyJwt` gives the
  outcome the JWT service produces from a token's claims;
- the stored name of an uploaded image (`storedName`);
- the sort key for a sort field other than `createdAt` (`other`);
- the current time (`now`).

## Model

| member | source | states |
|---|---|---|
| Models.AddToSet | src/repositories/gossips-repo.ts:28-30 | `$addToSet`: the result holds exactly the old ids plus the new one; unchanged when the id is already there, the id appended at the end otherwise |
| Models.Without | src/repositories/gossips-repo.ts:31-36 | `$pull`: the result holds exactly the old ids other than the pulled one |
| Models.WithoutConcat | src/repositories/gossips-repo.ts:31-36 | `$pull` keeps the order of the rest: pulling from a concatenation is the concatenation of the pulled parts |
| Models.WithoutUndoesAdd | src/repositories/gossips-repo.ts:28-36 | pulling an id that was just added to a list that lacked it gives back the original list |
| Models.LikesMirrored | src/models/gossip-model.ts:15 | in a consistent store, a user is in a gossip's (comment's) `likes` exactly when that gossip (comment) is in the user's `likedGossips` (`likedComments`) |
| Models.Empty | src/models/user-model.ts:4-29 | the empty store satisfies both invariants |
| Text.ParseIdString | src/domain/comments-service.ts:78 | the hex string of an id parses back to the id |
| Text.IdStringInjective | src/controllers/gossips-controller.ts:98 | two ids have the same string form exactly when they are equal |
| Http.SameIdStringIff | src/controllers/gossips-controller.ts:190 | the ownership test on string forms decides id equality |
| Text.Lower | src/models/user-model.ts:14 | lower-casing keeps the length, maps each character, and yields a lower-case string |
| Text.LowerIdempotent | src/models/user-model.ts:14 | lower-casing twice is lower-casing once |
| Text.EmptyOccursEverywhere | src/repositories/users-query-repo.ts:20 | the empty search text occurs in every name |
| Text.JoinSplit | src/middlewares/basic-token-validator.ts:13 | joining the space-split words of a header with spaces restores the header |
| Text.SplitJoin | src/middlewares/basic-token-validator.ts:13 | splitting words without spaces that were joined by spaces gives back the words |
| Pagination.OrFalsy | src/repositories/users-query-repo.ts:16-17 | a missing, NaN or zero argument becomes the default; any other number passes unchanged |
| Pagination.SortKey | src/repositories/users-query-repo.ts:18 | an empty sort field and `createdAt` both sort by creation time |
| Pagination.CeilDivBounds | src/repositories/users-query-repo.ts:28 | for a positive limit the page count is the least n with total <= n * limit |
| Pagination.SortBy | src/repositories/users-query-repo.ts:36 | sorting is a permutation of the rows |
| Pagination.SortBySorted | src/repositories/users-query-repo.ts:36 | the sorted rows are in key order, ascending or descending as asked |
| Pagination.PageItems | src/repositories/users-query-repo.ts:37-38 | skip and limit fail exactly when the skip `(page - 1) * limit` is negative |
| Pagination.Limit | src/repositories/users-query-repo.ts:38 | limit 0 means no limit; otherwise at most the absolute value of limit rows, always a prefix |
| Pagination.WindowSorted | src/repositories/users-query-repo.ts:36-38 | a page of a sorted listing is sorted |
| Pagination.FirstPagesPrefix | src/repositories/users-query-repo.ts:37-38 | pages 1..n laid end to end are the first n * limit rows |
| Pagination.PagesCoverAll | src/repositories/users-query-repo.ts:28-38 | pages 1..totalPages together are exactly the listing: every row appears once, in order |
| Pagination.PastLastPageEmpty | src/repositories/users-query-repo.ts:28-38 | a page past the last one is empty |
| GossipsRepo.FindGossipById | src/repositories/gossips-repo.ts:8-10 | the stored gossip, or None exactly when the id is absent |
| GossipsRepo.UpdateGossip | src/repositories/gossips-repo.ts:11-19 | None and no change when absent; otherwise the post-update record, which is what is stored |
| GossipsRepo.UpdateGossipFields | src/repositories/gossips-repo.ts:11-19 | only `content` and `imageUrl` change (an absent `imageUrl` keeps the old one); every other table is untouched |
| GossipsRepo.UpdateGossipKeepsValid | src/repositories/gossips-repo.ts:11-19 | the update keeps `Valid` |
| GossipsRepo.UpdateGossipKeepsConsistent | src/repositories/gossips-repo.ts:11-19 | the update keeps `Consistent` |
| GossipsRepo.CreateAndAssociateWithUser | src/repositories/gossips-repo.ts:20-22 | the new gossip gets the next id and is stored under it |
| GossipsRepo.CreateStoresAndAssociates | src/repositories/gossips-repo.ts:20-22 | the record is the input with a fresh id; the author's `gossips` gains the id at the end; no other user and no comment or token changes |
| GossipsRepo.CreateKeepsValid | src/repositories/gossips-repo.ts:20-22 | creation keeps `Valid` |
| GossipsRepo.CreateKeepsConsistent | src/repositories/gossips-repo.ts:20-22 | creation by an existing author with empty lists keeps `Consistent` |
| GossipsRepo.DeleteAndDissociateFromUser | src/repositories/gossips-repo.ts:23-27 | returns the deleted gossip, or None with no change when absent |
| GossipsRepo.DeleteShape | src/repositories/gossips-repo.ts:23-27 | the gossip and exactly its comments leave their tables; the other records stay; each user is only dissociated |
| GossipsRepo.DeletePrunesUsers | src/repositories/gossips-repo.ts:23-27 | every user's four lists lose exactly the gossip id or the ids of its comments |
| GossipsRepo.DeleteCascadeComplete | src/repositories/gossips-repo.ts:23-27 | afterwards no gossip, comment or user list mentions the gossip or its comments, and all other gossips and comments are kept unchanged |
| GossipsRepo.DeleteKeepsValid | src/repositories/gossips-repo.ts:23-27 | the cascade keeps `Valid` |
| GossipsRepo.DeleteKeepsConsistent | src/repositories/gossips-repo.ts:23-27 | the cascade keeps `Consistent`: no dangling id remains |
| GossipsRepo.LikeGossip | src/repositories/gossips-repo.ts:28-30 | returns the gossip's new `likes`, or None with no change when absent |
| GossipsRepo.UnlikeGossip | src/repositories/gossips-repo.ts:31-36 | returns the gossip's new `likes`, or None with no change when absent |
| GossipsRepo.LikeGossipAdds | src/repositories/gossips-repo.ts:28-30 | `likes` gains the user; the user's `likedGossips` gains the gossip; nothing else changes |
| GossipsRepo.UnlikeGossipRemoves | src/repositories/gossips-repo.ts:31-36 | `likes` loses the user; the user's `likedGossips` loses the gossip; nothing else changes |
| GossipsRepo.LikeKeepsValid | src/repositories/gossips-repo.ts:28-30 | a like keeps `Valid` |
| GossipsRepo.UnlikeKeepsValid | src/repositories/gossips-repo.ts:31-36 | an unlike keeps `Valid` |
| GossipsRepo.LikeKeepsConsistent | src/repositories/gossips-repo.ts:28-30 | a like by an existing user keeps `Consistent` |
| GossipsRepo.UnlikeKeepsConsistent | src/repositories/gossips-repo.ts:31-36 | an unlike keeps `Consistent` |
| GossipsRepo.LikeIdempotent | src/repositories/gossips-repo.ts:28-30 | liking twice is liking once |
| GossipsRepo.UnlikeUndoesLike | src/repositories/gossips-repo.ts:28-36 | in a store with mirrored likes, unliking after a first like restores the store exactly |
| CommentsRepo.FindCommentById | src/repositories/comments-repo.ts:13-15 | the stored comment, or None exactly when absent |
| CommentsRepo.CreateAndAssociateWithUserAndGossip | src/repositories/comments-repo.ts:8-12 | the new comment gets a fresh id and is stored under it |
| CommentsRepo.CreateShape | src/repositories/comments-repo.ts:8-12 | the record is the input; the author's and the gossip's `comments` gain the id at the end; nothing else changes |
| CommentsRepo.CreateIdFresh | src/repositories/comments-repo.ts:8-12 | the new id names no existing comment, user or gossip |
| CommentsRepo.CreateKeepsValid | src/repositories/comments-repo.ts:8-12 | creation with a top-level (or absent) parent keeps `Valid`, so depth stays at most two |
| CommentsRepo.CreateKeepsDepthCap | src/repositories/comments-repo.ts:8-12 | creation under a parent that has no parent keeps the depth cap |
| CommentsRepo.CreateKeepsConsistent | src/repositories/comments-repo.ts:8-12 | creation by an existing author on an existing gossip with no likes keeps `Consistent` |
| CommentsRepo.LikeComment | src/repositories/comments-repo.ts:16-18 | no change when absent; otherwise the user is in the comment's `likes` and, when stored, has the comment in `likedComments`; only those two records change |
| CommentsRepo.UnlikeComment | src/repositories/comments-repo.ts:19-21 | no change when absent; otherwise the user is not in the comment's `likes` and, when stored, lacks the comment in `likedComments`; only those two records change |
| CommentsRepo.LikeCommentAdds | src/repositories/comments-repo.ts:16-18 | `likes` gains the user; the user's `likedComments` gains the comment; nothing else changes |
| CommentsRepo.UnlikeCommentRemoves | src/repositories/comments-repo.ts:19-21 | `likes` loses the user; the user's `likedComments` loses the comment; nothing else changes |
| CommentsRepo.LikeKeepsValid | src/repositories/comments-repo.ts:16-18 | a like keeps `Valid` |
| CommentsRepo.UnlikeKeepsValid | src/repositories/comments-repo.ts:19-21 | an unlike keeps `Valid` |
| CommentsRepo.LikeKeepsConsistent | src/repositories/comments-repo.ts:16-18 | a like by an existing user keeps `Consistent` |
| CommentsRepo.UnlikeKeepsConsistent | src/repositories/comments-repo.ts:19-21 | an unlike keeps `Consistent` |
| CommentsRepo.LikeIdempotent | src/repositories/comments-repo.ts:16-18 | liking twice is liking once |
| CommentsRepo.UnlikeUndoesLike | src/repositories/comments-repo.ts:16-21 | in a store with mirrored likes, unliking after a first like restores the store exactly |
| CommentsRepo.DeleteAndDissociateFromUserAndGossip | src/repositories/comments-repo.ts:23-27 | returns the deleted comment, or None with no change when it did not exist |
| CommentsRepo.DeleteShape | src/repositories/comments-repo.ts:23-27 | only that comment leaves its table; each user's `comments` and `likedComments` and each gossip's `comments` are pulled |
| CommentsRepo.DeletePrunesLists | src/repositories/comments-repo.ts:23-27 | every pulled list loses exactly the comment id |
| CommentsRepo.DeleteCascadeComplete | src/repositories/comments-repo.ts:23-27 | afterwards the comment is gone and no author, liker or gossip lists it; other comments are unchanged |
| CommentsRepo.DeleteKeepsValid | src/repositories/comments-repo.ts:23-27 | delete keeps `Valid` |
| CommentsRepo.DeleteKeepsConsistent | src/repositories/comments-repo.ts:23-27 | delete keeps `Consistent` |
| UsersRepo.GetAllUsers | src/repositories/users-repo.ts:8-10 | the listing is a permutation of all stored users |
| UsersRepo.GetAllUsersNewestFirst | src/repositories/users-repo.ts:8-10 | every user appears, only stored users appear, newest `createdAt` first |
| UsersRepo.FindUserById | src/repositories/users-repo.ts:18-20 | the stored user, or None exactly when absent |
| UsersRepo.FindByEmail | src/repositories/users-repo.ts:21-23 | a found user is stored and holds the lower-cased email |
| UsersRepo.FindByEmailExact | src/repositories/users-repo.ts:21-23 | under unique emails: None exactly when no user holds the email, otherwise that very user |
| UsersRepo.CheckIfEmailIsAlreadyOccupied | src/repositories/users-repo.ts:28-31 | true exactly when `findByEmail` finds a user |
| UsersRepo.OccupiedIffHeld | src/repositories/users-repo.ts:28-31 | true exactly when some stored user holds the email, ignoring case |
| UsersRepo.FindByLoginOrEmail | src/domain/users-service.ts:39 | a stored user whose username is the argument or whose email is its lower-cased form, or None when no user has either |
| UsersRepo.CreateUser | src/repositories/users-repo.ts:11-13 | fails and stores nothing exactly when the email is taken; otherwise stores the user under the next id |
| UsersRepo.CreateUserStores | src/repositories/users-repo.ts:11-13 | the stored user carries the input's fields, the lower-cased email, and is unverified; other tables unchanged |
| UsersRepo.CreateUserKeepsValid | src/repositories/users-repo.ts:11-13 | creation keeps `Valid`, including unique emails |
| UsersRepo.CreateUserKeepsConsistent | src/repositories/users-repo.ts:11-13 | creating a user with empty lists keeps `Consistent` |
| UsersRepo.UpdateUser | src/repositories/users-repo.ts:14-17 | true exactly when the user exists, since the timestamp bump modifies every existing user; absent user: no change |
| UsersRepo.UpdateUserOnlyAbout | src/repositories/users-repo.ts:14-17 | only that user's `about` changes |
| UsersRepo.UpdateUserTwice | src/repositories/users-repo.ts:14-17 | setting the same value again leaves the modelled tables as they were and still answers true for an existing user |
| UsersRepo.UpdateUserKeepsInvariants | src/repositories/users-repo.ts:14-17 | the update keeps `Valid`, and keeps `Consistent` when it held |
| UsersRepo.UpdateVerification | src/repositories/users-repo.ts:32-35 | true exactly when the user exists, verified before or not; afterwards the user is verified |
| UsersRepo.VerifyTwice | src/repositories/users-repo.ts:32-35 | a second call leaves the modelled tables as they were and still answers true for an existing user |
| UsersRepo.UpdateVerificationKeepsInvariants | src/repositories/users-repo.ts:32-35 | verification keeps `Valid`, and keeps `Consistent` when it held |
| UsersRepo.DeleteUser | src/repositories/users-repo.ts:24-27 | removes only the user record and answers whether it existed |
| UsersRepo.DeleteUserKeepsValid | src/repositories/users-repo.ts:24-27 | deletion keeps `Valid` |
| UsersRepo.DeleteUserLeavesDanglingAuthor | src/repositories/users-repo.ts:24-27 | deleting a user who wrote a gossip breaks authorship consistency (no cascade) |
| UsersRepo.DeleteUserLeavesDanglingLike | src/repositories/users-repo.ts:24-27 | deleting a user who liked a gossip leaves a dangling like |
| UsersRepo.DeleteUnlinkedUserKeepsConsistent | src/repositories/users-repo.ts:24-27 | deleting a user with four empty lists keeps `Consistent` |
| TokensRepo.CreateToken | src/repositories/tokens-repo.ts:5-7 | the token is stored under the next id; no other table changes |
| TokensRepo.CreateTokenStores | src/repositories/tokens-repo.ts:5-7 | the stored record carries the input's fields under a fresh id |
| TokensRepo.FindByIdAndToken | src/repositories/tokens-repo.ts:8-13 | a found record matches both user id and token; None means no record matches both |
| TokensRepo.FindAfterCreate | src/repositories/tokens-repo.ts:5-13 | a token just created is found by its user id and token |
| TokensRepo.AddSentDate | src/repositories/tokens-repo.ts:14-20 | true exactly when the token exists; then only its `sentEmails` changes, by appending the date |
| TokensRepo.AddSentDateAppends | src/repositories/tokens-repo.ts:14-20 | the date is the new last element, the old list is the prefix, and other fields are unchanged |
| TokensRepo.DeleteToken | src/repositories/tokens-repo.ts:21-24 | removes the token and answers whether it existed |
| TokensRepo.DeleteTokenGone | src/repositories/tokens-repo.ts:21-24 | afterwards the token is absent, only other tokens remain, and a second delete answers false |
| TokensRepo.CreateTokenKeepsInvariants | src/repositories/tokens-repo.ts:5-7 | creation keeps both invariants |
| TokensRepo.AddSentDateKeepsInvariants | src/repositories/tokens-repo.ts:14-20 | appending a date keeps both invariants |
| TokensRepo.DeleteTokenKeepsInvariants | src/repositories/tokens-repo.ts:21-24 | deletion keeps both invariants |
| Store.Store.UpdateGossip | src/repositories/gossips-repo.ts:11-19 | the new tables and the result are those of `GossipsRepo.UpdateGossip` |
| Store.Store.CreateGossip | src/repositories/gossips-repo.ts:20-22 | the new tables and the result are those of `GossipsRepo.CreateAndAssociateWithUser` |
| Store.Store.DeleteGossip | src/repositories/gossips-repo.ts:23-27 | the new tables and the result are those of `GossipsRepo.DeleteAndDissociateFromUser` |
| Store.Store.LikeGossip | src/repositories/gossips-repo.ts:28-30 | the new tables and the result are those of `GossipsRepo.LikeGossip` |
| Store.Store.UnlikeGossip | src/repositories/gossips-repo.ts:31-36 | the new tables and the result are those of `GossipsRepo.UnlikeGossip` |
| Store.Store.CreateComment | src/repositories/comments-repo.ts:8-12 | the new tables and the result are those of `CommentsRepo.CreateAndAssociateWithUserAndGossip` |
| Store.Store.LikeComment | src/repositories/comments-repo.ts:16-18 | the new tables are those of `CommentsRepo.LikeComment`; nothing is returned |
| Store.Store.UnlikeComment | src/repositories/comments-repo.ts:19-21 | the new tables are those of `CommentsRepo.UnlikeComment`; nothing is returned |
| Store.Store.DeleteComment | src/repositories/comments-repo.ts:23-27 | the new tables and the result are those of `CommentsRepo.DeleteAndDissociateFromUserAndGossip` |
| Store.Store.CreateUser | src/repositories/users-repo.ts:11-13 | the new tables and the result are those of `UsersRepo.CreateUser` |
| Store.Store.UpdateUser | src/repositories/users-repo.ts:14-17 | the new tables and the answer are those of `UsersRepo.UpdateUser`: only `about` changes, and the answer is true exactly for an existing user |
| Store.Store.DeleteUser | src/repositories/users-repo.ts:24-27 | the new tables and the answer are those of `UsersRepo.DeleteUser` |
| Store.Store.UpdateVerification | src/repositories/users-repo.ts:32-35 | the new tables and the answer are those of `UsersRepo.UpdateVerification`: only `verified` is set, and the answer is true exactly for an existing user |
| Store.Store.CreateToken | src/repositories/tokens-repo.ts:5-7 | the new tables and the result are those of `TokensRepo.CreateToken` |
| Store.Store.AddSentDate | src/repositories/tokens-repo.ts:14-20 | the new tables and the answer are those of `TokensRepo.AddSentDate` |
| Store.Store.DeleteToken | src/repositories/tokens-repo.ts:21-24 | the new tables and the answer are those of `TokensRepo.DeleteToken` |
| GossipsQueryRepo.FindGossipById | src/repositories/gossips-query-repo.ts:9-11 | the stored gossip, or None exactly when absent |
| GossipsQueryRepo.Sorted | src/repositories/gossips-query-repo.ts:27-28 | the sorted listing is a permutation of all gossips |
| GossipsQueryRepo.FindGossips | src/repositories/gossips-query-repo.ts:24-38 | `totalItems` is the number of gossips |
| GossipsQueryRepo.FindGossipsDefaults | src/repositories/gossips-query-repo.ts:19-25 | missing, NaN or zero limit and page give page 1 of at most 10 gossips, ceil(count / 10) pages, in creation order, descending for "desc" |
| GossipsQueryRepo.FindGossipsPage | src/repositories/gossips-query-repo.ts:27-38 | for page >= 1 and limit > 0 the items are that window of the sorted gossips; they are stored and in key order; `currentPage` is the page |
| GossipsQueryRepo.FindGossipsCoverAll | src/repositories/gossips-query-repo.ts:24-31 | pages 1..totalPages together list every gossip once, in sort order |
| CommentsQueryRepo.ToRow | src/repositories/comments-query-repo.ts:10-19 | the row's `id` parses back to the comment's id; content, author, likes, gossip and parent are copied |
| CommentsQueryRepo.ToRows | src/repositories/comments-query-repo.ts:34 | rows map one-to-one and in order |
| CommentsQueryRepo.CommentsOf | src/repositories/comments-query-repo.ts:27-32 | exactly the stored comments whose `gossip` is the requested one |
| CommentsQueryRepo.CommentsPage | src/repositories/comments-query-repo.ts:22-32 | `totalItems` is the number of the gossip's comments |
| CommentsQueryRepo.FindCommentsByGossip | src/repositories/comments-query-repo.ts:22-44 | succeeds exactly when the page of stored comments does |
| CommentsQueryRepo.DefaultPage | src/repositories/comments-query-repo.ts:22-44 | omitted page and limit give page 1, the gossip's comment count, ceil(count / 10) pages and its first 10 comments as rows, in order |
| CommentsQueryRepo.ZeroLimitKept | src/repositories/comments-query-repo.ts:24-32 | an explicit limit 0 is kept: the page holds every comment and the page count is not a number |
| CommentsQueryRepo.PageRowsBelong | src/repositories/comments-query-repo.ts:27-43 | the result is never null; the rows are the requested window and all belong to the gossip |
| CommentsQueryRepo.PagesListEveryComment | src/repositories/comments-query-repo.ts:27-43 | pages 1..totalPages list each of the gossip's comments once, in order |
| UsersQueryRepo.Matching | src/repositories/users-query-repo.ts:22-35 | exactly the stored users whose first or last name contains the search text, ignoring case |
| UsersQueryRepo.Sorted | src/repositories/users-query-repo.ts:30-36 | the sorted listing is a permutation of the matching users |
| UsersQueryRepo.GetAllUsers | src/repositories/users-query-repo.ts:22-45 | `totalItems` is the match count |
| UsersQueryRepo.FindUserById | src/repositories/users-query-repo.ts:47-49 | the stored user, or None exactly when absent |
| UsersQueryRepo.EmptySearchSelectsNamed | src/repositories/users-query-repo.ts:20-35 | the empty search matches exactly the users that have a first or a last name |
| UsersQueryRepo.SearchIgnoresCase | src/repositories/users-query-repo.ts:24-25 | a search and its lower-cased form match the same users |
| UsersQueryRepo.EmptyStoreListing | src/repositories/users-query-repo.ts:16-45 | an empty store with default arguments gives 0 items, 0 pages, page 1 and no items |
| UsersQueryRepo.GetAllUsersPage | src/repositories/users-query-repo.ts:16-45 | for page >= 1 and limit > 0: `currentPage` is the page, at most `limit` items, the window of the sorted matches, ceil(matches / limit) pages, sorted, all matching |
| UsersQueryRepo.GetAllUsersCoverAll | src/repositories/users-query-repo.ts:28-38 | pages 1..totalPages together list every matching user once, in sort order |
| GossipsService.ImageName | src/domain/gossips-service.ts:17-18 | no image name exactly when no file is supplied; otherwise the stored file's name |
| GossipsService.GossipRecord | src/domain/gossips-service.ts:20-27 | the record has the given author, title, content and image name, and empty `comments` and `likes` |
| GossipsService.CreateGossip | src/domain/gossips-service.ts:11-30 | stores that record through the repository; keeps `Valid`, and keeps `Consistent` for an existing author |
| GossipsService.UpdateGossip | src/domain/gossips-service.ts:31-40 | forwards only content and image URL; title, author, comments and likes are unchanged; keeps both invariants |
| GossipsService.LikeGossip | src/domain/gossips-service.ts:41-43 | is the repository like; keeps the invariants |
| GossipsService.UnlikeGossip | src/domain/gossips-service.ts:44-46 | is the repository unlike; keeps the invariants |
| GossipsService.DeleteGossip | src/domain/gossips-service.ts:47-53 | on a missing id: None and no change; otherwise the cascading delete and its result; keeps both invariants |
| CommentsService.ResolveParent | src/domain/comments-service.ts:18-26 | the parent is absent exactly when none was given; a changed parent is the stored parent of the given one |
| CommentsService.ResolveParentCases | src/domain/comments-service.ts:18-26 | no parent stays null; an unknown parent id is kept; a known parent is kept if top-level, else replaced by its own parent |
| CommentsService.ResolvedIsTopLevel | src/domain/comments-service.ts:18-26 | in a depth-capped store the resolved parent is absent, unknown, or has no parent |
| CommentsService.CollapseIsOneStep | src/domain/comments-service.ts:20-25 | the lookup is done once: in an uncapped three-level chain the resolved parent still has a parent |
| CommentsService.CommentRecord | src/domain/comments-service.ts:28-34 | the record has empty likes and the given author, content, gossip and parent |
| CommentsService.CreateComment | src/domain/comments-service.ts:12-37 | stores the record with the resolved parent; keeps `Valid` (depth at most two) and, for an existing author and gossip, `Consistent` |
| CommentsService.LikeComment | src/domain/comments-service.ts:38-43 | applies the repository like and yields no list |
| CommentsService.UnlikeComment | src/domain/comments-service.ts:44-49 | applies the repository unlike and yields no list |
| CommentsService.LikeCommentListing | src/domain/comments-service.ts:38-43 | corrected: yields the comment's new likes, which contain the user, or None exactly when the comment is absent |
| CommentsService.UnlikeCommentListing | src/domain/comments-service.ts:44-49 | corrected: yields the comment's new likes, which lack the user, or None exactly when absent |
| CommentsService.DeleteComment | src/domain/comments-service.ts:50-52 | the repository delete; None exactly when absent; afterwards the comment is gone; keeps both invariants |
| CommentsService.TransformToViewModel | src/domain/comments-service.ts:74-86 | the view's `id` parses back to the comment's id; content and likes are copied; parent is null exactly when absent |
| CommentsService.TransformParsesBack | src/domain/comments-service.ts:74-86 | `id`, `author`, `gossip` and `parent` parse back to the ids; parent is null exactly when absent; other fields copied |
| CommentsService.TransformInjective | src/domain/comments-service.ts:74-86 | distinct comments give distinct view models |
| CommentsService.Views | src/domain/comments-service.ts:69-71 | items map one-to-one and in order |
| CommentsService.ReadCommentsAsWritten | src/domain/comments-service.ts:53-86 | as written: fails unless the query succeeds; views are built from the query's rows |
| CommentsService.ViewsAsWritten | src/domain/comments-service.ts:69-71 | as written: `Promise.all` over the rows; when it succeeds there is one view per row |
| CommentsService.ReadCommentsAsWrittenThrows | src/domain/comments-service.ts:69-78 | as written: a query error passes through; a page holding any row fails with the TypeError of reading `_id`; only an empty page is answered, with the query's totals |
| CommentsService.ReadCommentsAsWrittenFirstPage | src/domain/comments-service.ts:53-86 | the first page of a gossip with a comment, under any positive limit, fails as written and is answered, non-empty, by the corrected version |
| CommentsService.ReadComments | src/domain/comments-service.ts:53-73 | corrected: succeeds exactly when the query does, with one view per row |
| CommentsService.ReadCommentsAgreesWithQuery | src/domain/comments-service.ts:53-73 | corrected: the totals and current page equal the query repository's, and the items correspond one to one |
| CommentsService.ReadCommentsOnGossip | src/domain/comments-service.ts:53-73 | corrected: for page >= 1 and limit > 0 the page is answered and every view names the requested gossip |
| UsersService.UserRecord | src/domain/users-service.ts:19-28 | role "basic", the hash as password, four empty lists |
| UsersService.CreateUser | src/domain/users-service.ts:11-31 | stores the salted hash, never the plaintext; fails exactly on a taken email; keeps both invariants |
| UsersService.CheckCredentials | src/domain/users-service.ts:35-53 | a returned user is the one the login lookup finds, and its hash compares equal to the password |
| UsersService.CheckCredentialsDecides | src/domain/users-service.ts:35-53 | unknown login: None; otherwise the user exactly when the hash comparison succeeds |
| UsersService.RegisteredUserCanLogIn | src/domain/users-service.ts:11-53 | a user just created with a fresh login logs in with the same password |
| GossipsController.ReadGossip | src/controllers/gossips-controller.ts:39-58 | 404 exactly when the gossip is absent, 200 exactly when present |
| GossipsController.ReadGossipAnswers | src/controllers/gossips-controller.ts:39-58 | 404 exactly when the gossip is absent; otherwise 200 with the gossip |
| GossipsController.UpdateGossip | src/controllers/gossips-controller.ts:82-114 | 404 when absent, 403 when the requester is not the author, both with no change; otherwise 201 with the updated gossip; invariants kept |
| GossipsController.LikeGossip | src/controllers/gossips-controller.ts:116-144 | 404 when absent, 400 when already liked, both with no change; otherwise the like and 200; authors may like their own gossip |
| GossipsController.UnlikeGossip | src/controllers/gossips-controller.ts:146-175 | 404 when absent, 400 when not liked, both with no change; otherwise the unlike and 200 |
| GossipsController.DeleteGossip | src/controllers/gossips-controller.ts:177-206 | 404 then 403 with no change; otherwise the cascade, 200 with the deleted gossip, and the gossip is gone |
| CommentsController.CreateComment | src/controllers/comments-controller.ts:9-40 | for the authenticated requester: 404 with no change exactly when the gossip is absent; otherwise 201 with the comment created under the resolved parent; invariants kept |
| CommentsController.LikeComment | src/controllers/comments-controller.ts:42-70 | 404 when absent, 400 when already liked, no change on either; otherwise the like and 200 |
| CommentsController.UnlikeComment | src/controllers/comments-controller.ts:72-102 | 404 when absent, 400 when not liked, no change on either; otherwise the unlike and 200 |
| CommentsController.DeleteComment | src/controllers/comments-controller.ts:104-134 | 404 when absent, 403 for a non-author, no change on either; otherwise delete and 200 with the deleted comment |
| LikesController.GetItemLikes | src/controllers/likes-controller.ts:11-43 | 400 exactly for an unknown item type; 200 exactly when a likes list is sent |
| LikesController.GetItemLikesAnswers | src/controllers/likes-controller.ts:11-43 | 400 exactly for an item type other than "Comment" or "Gossip"; 404 exactly for a missing item; otherwise 200 with its likes |
| LikesController.GetItemLikesMirrored | src/controllers/likes-controller.ts:11-43 | in a store with mirrored likes, every listed liker exists and lists the item back |
| LikesController.LikeItem | src/controllers/likes-controller.ts:45-76 | as written: unknown type gives 400 with no change; a gossip is liked, with 200 and its likes or 404; a comment is liked but the answer is always 404; keeps `Valid`, and `Consistent` for a stored requester |
| LikesController.UnlikeItem | src/controllers/likes-controller.ts:78-109 | as written: the same dispatch; a comment is unliked but the answer is always 404; keeps `Valid`, and `Consistent` for a stored requester |
| LikesController.LikeCommentChangesStore | src/controllers/likes-controller.ts:53-54 | a first like of an existing comment changes the store, so that 404 follows a mutation |
| LikesController.UnlikeCommentChangesStore | src/controllers/likes-controller.ts:86-87 | a present like's removal changes the store, so that 404 follows a mutation |
| LikesController.LikeItemCorrected | src/controllers/likes-controller.ts:45-76 | corrected: 404 exactly for a missing comment; otherwise 200 with the comment's likes, which contain the requester; keeps `Valid`, and `Consistent` for a stored requester |
| LikesController.UnlikeItemCorrected | src/controllers/likes-controller.ts:78-109 | corrected: 404 exactly for a missing comment; otherwise 200 with the likes, which lack the requester; keeps `Valid`, and `Consistent` for a stored requester |
| UsersController.CreateUser | src/controllers/users-controller.ts:22-53 | 500 with no change exactly when the email is taken; otherwise the service's user is stored and 201 |
| UsersController.FindByUsername | src/controllers/users-controller.ts:62 | a stored user with that username, or None when there is none |
| UsersController.ReadUser | src/controllers/users-controller.ts:55-72 | 200 or 404; a 200 sends a user with the requested username |
| UsersController.ReadUserAnswers | src/controllers/users-controller.ts:55-72 | 404 exactly when no user has the username; otherwise 200 with that stored user |
| UsersController.UpdateUser | src/controllers/users-controller.ts:92-119 | 404 with no change when the requester is not found; otherwise only `about` is set and 200; keeps `Valid`, and keeps `Consistent` when it held |
| UsersController.DeleteUser | src/controllers/users-controller.ts:121-138 | 404 with no change for an unknown user; otherwise only that user record is removed and 200 |
| TokenValidator.BearerToken | src/middlewares/basic-token-validator.ts:13-14 | a token is only found in a present header and contains no space |
| TokenValidator.BearerTokenOfHeader | src/middlewares/basic-token-validator.ts:13-14 | a header whose first word is "Bearer" yields its second word |
| TokenValidator.OtherSchemeRefused | src/middlewares/basic-token-validator.ts:14 | any other first word yields no token |
| TokenValidator.BearerTokenPosition | src/middlewares/basic-token-validator.ts:13-14 | a token taken from a header follows "Bearer " there and ends at a space or at the end |
| TokenValidator.ValidatorAsWritten | src/middlewares/basic-token-validator.ts:7-61 | as written: one to three effects; three only as attach, next, then 400 |
| TokenValidator.Validator | src/middlewares/basic-token-validator.ts:7-61 | corrected: one response, or attach then next |
| TokenValidator.ValidatorDecides | src/middlewares/basic-token-validator.ts:7-61 | corrected: a missing or empty token gives 401; a verified id attaches its user and calls next, or gives 400; a throw gives 401; a rejected token with no cookie gives 401; refresh rejected gives 403, refresh throws gives 401, refresh verified attaches; always exactly one outcome |
| TokenValidator.AsWrittenFallsThrough | src/middlewares/basic-token-validator.ts:43-52 | as written equals corrected except after a successful refresh, where 400 is sent after `next()` |
| TokenValidator.FallThroughExample | src/middlewares/basic-token-validator.ts:21-52 | a concrete store and header, with an access token that verifies but has no `userId`, where the trace is attach, next, then 400 |
| TokenValidator.VerifyJwt | src/application/jwt-service.ts:20-27 | as written: throws exactly on a bad signature or an expired token; no id exactly for a valid token without `userId`; otherwise its `userId` |
| TokenValidator.ExpiredAccessNeverRefreshes | src/middlewares/basic-token-validator.ts:12-61 | as written: an expired access token answers 401 whatever the refresh cookie holds |
| TokenValidator.VerifyAccessLenient | src/application/jwt-service.ts:20-23 | corrected: throws exactly on a bad signature; no id for an expired token or one without `userId` |
| TokenValidator.ExpiredAccessRefreshes | src/middlewares/basic-token-validator.ts:21-45 | corrected: an expired access token and a refresh cookie naming a stored user attach that user and call next once |
| TokenValidator.Exchange.Respond | src/middlewares/basic-token-validator.ts:17-19 | appends a response to the trace; the user is unchanged |
| TokenValidator.Exchange.Attach | src/middlewares/basic-token-validator.ts:54 | sets `req.user` and records it |
| TokenValidator.Exchange.Next | src/middlewares/basic-token-validator.ts:55 | appends a call of `next`; the user is unchanged |
| TokenValidator.BasicTokenValidator | src/middlewares/basic-token-validator.ts:7-61 | the effects it performs are the as-written trace; `req.user` is the first attached user |
| UserPermission.CheckUserPermission | src/middlewares/check-user-permission.ts:13-29 | the outcome is next, 403 or 500, and next only with a requester |
| UserPermission.PermissionDecides | src/middlewares/check-user-permission.ts:13-29 | next exactly when the requester's id string equals the path id; 403 exactly on a mismatch; 500 exactly without a requester |
| UserPermission.PermissionIsPerUser | src/middlewares/check-user-permission.ts:16-22 | two requesters both let through for one path id are the same user |

## Left out

- Image storage: the S3 upload becomes the `storedName` parameter. The S3 delete of a gossip's image, and its logging, are not modelled.
- Hashing and tokens: bcrypt hashing and comparison become function parameters. JWT verification is modelled on the claims `jwt.verify` reads (signature, expiry, `userId`), not on token strings. Cookie and JWT issuance in the users controller are not modelled.
- Helpers that this revision of the repository does not define: `usersRepo.findByLoginOrEmail`, `usersQueryRepo.findByUsername` and `usersService.updateUser`. Their call sites (users-service.ts:39; users-controller.ts:62, :102, :110 and :124) name methods that do not exist, so as written these calls throw and the handlers answer 500. The model supplies what the call sites expect: a first-match lookup by username or e-mail, a first-match lookup by username, and `usersRepo.updateUser`.
- User and gossip records: user-model.ts declares `name`, `email`, `password`, `role`, `likedGossips` and `likedComments` only, and gossip-model.ts has no `imageName`. So as written `User.create` fails validation on the missing `name`, and strict mode drops `about` and `verified` from updates. The records in `Models` carry the fields the repositories, services and tests use instead.
- UsersRepo.FindByLoginOrEmail: not defined in this revision; modelled as the lookup its call site expects, over the fields the services and tests use rather than user-model.ts as written. The email is compared with the lower-cased argument, as the schema's `lowercase` option applies to query values as it does to stored emails (the same as `UsersRepo.FindByEmail`); the username is compared as given.
- UsersRepo.CreateUser: follows the fields the services and tests use, not user-model.ts as written, which requires a `name` the service never sets.
- UsersRepo.UpdateUser: follows the fields the services and tests use; user-model.ts as written declares no `about`, which strict mode would strip.
- UsersRepo.UpdateVerification: follows the fields the services and tests use; user-model.ts as written declares no `verified`, which strict mode would strip.
- UsersService.CreateUser: follows the fields the repositories and tests use, not user-model.ts as written.
- UsersService.CheckCredentials: calls the lookup `UsersRepo.FindByLoginOrEmail`, which this revision does not define.
- UsersController.FindByUsername: not defined in this revision; modelled as the lookup its call site expects, over the fields the services and tests use rather than user-model.ts as written.
- UsersController.ReadUser: uses `UsersController.FindByUsername`, which this revision does not define.
- UsersController.DeleteUser: uses `UsersRepo.FindByLoginOrEmail`, which this revision does not define, over the fields the services and tests use rather than user-model.ts as written.
- The Mongoose statics behind the repositories are not part of this model. Their effects follow the method names and the integration tests. For example, a gossip delete pulls the gossip id and its comments' ids from every user's lists.
- Populate: `populate("gossips")` and `populate("comments")` are not modelled. Found records carry ids, not the populated documents.
- Timestamps: the `updatedAt` value is not stored. Its effect on the update answers is modelled: every update of an existing user counts as a modification. `createdAt` is the `now` argument.
- Sorting: a sort field other than `createdAt` sorts by the caller-supplied `other` rank. Ties and Mongo's ordering of missing fields are not modelled.
- Query numbers: page or limit values of `Infinity`, fractions and `-0` are not modelled. The numeric arguments are integers, NaN or missing.
- Malformed ids: invalid ObjectIds and the resulting cast errors (the 500 branches) are not modelled. Ids are naturals, and their string form is lowercase hex without padding.
- Routing: the gossip and likes routers import `gossip-controller`, not `gossips-controller`, so no route of this revision reaches the `GossipsController` handlers (nor the `LikesController` ones). They are modelled as written.
- Concurrency: concurrent requests and partial failure of multi-document updates are not modelled. Each operation is atomic.
- Text.Lower: lower-cases ASCII letters only and keeps the length. The schema's `lowercase` uses `toLowerCase`, which also folds other letters ("É" to "é") and can change the length ("İ" becomes two code units). For e-mails with such letters, `Models.EmailsUnique`, `UsersRepo.FindByEmail` and the duplicate test of `UsersRepo.CreateUser` differ from the program.
- CommentsRepo.FreshCommentId: a new comment's id is also chosen above a client-supplied parent id the store never issued. This keeps ids unique in the model. MongoDB's ObjectId generation does nothing of this kind; it relies on ObjectIds not colliding.
- UsersQueryRepo.Matching: the `$regex` search is modelled as case-insensitive substring search on ASCII letters, with no regex metacharacters. A user without `firstName` or `lastName` matches no search, not even the empty one, because `$regex` never matches a missing field.
- CommentsQueryRepo.CommentsPage: the `null` branch cannot be reached, so the result is a `Result`, and a negative skip is a query error rather than an exception.
- CommentsService.ReadComments: this is the corrected version, built from the stored comments of the query's window (see Findings). The code as written is `CommentsService.ReadCommentsAsWritten`.
- UsersService.UserRecord: the service writes role "basic", but the schema default "Basic" never applies. The `about` argument passed by the controller is ignored, as in the service.
- UsersController.CreateUser: the 422 branch cannot be reached, because the repository either returns the user or throws. A duplicate email throws, which gives 500.
- CommentsController.CreateComment: the requester is an id. The handler reads `req.user._id` before its `try`. So a request without a user throws a TypeError outside the handler's error handling. The route sits behind the token validator, and a stored user always has an `_id`. So the `!author` 401 branch cannot be reached and is not modelled.
- UsersController.UpdateUser: the requester is identified by their username, as in the controller. The lookup and `usersService.updateUser` are not defined in this revision; the model uses `UsersRepo.FindByLoginOrEmail` and `UsersRepo.UpdateUser`, over the fields the services and tests use rather than user-model.ts as written.
- TokenValidator.BasicTokenValidator: sending a response after `next()` has already run is modelled as one more effect in the trace. What Express then does with that response is not modelled.

## Findings

| source | as written | input that shows it | evidently intended | confidence | as-written member | corrected member |
|---|---|---|---|---|---|---|
| src/controllers/likes-controller.ts:53-69 | for item type "Comment" the service returns no list, so the handler answers 404 "Comment not found" after liking (unliking) the comment | a like request with `itemType=Comment` for an existing comment the requester has not liked | 200 with the comment's likes; 404 only when the comment does not exist | not executed; no router in this revision mounts this controller (the likes router uses the gossip and comment controllers), so it cannot be reached over HTTP | LikesController.LikeItem, LikesController.LikeCommentChangesStore | LikesController.LikeItemCorrected |
| src/middlewares/basic-token-validator.ts:43-52 | the refresh branch calls `next()` without returning and falls through to the lookup with the falsy access id, which answers 400 | an access token that verifies but has no `userId` claim (one `generateTokens` never signs; an expired token throws and gets 401 instead), with a refresh cookie verifying to a stored user | attach the refreshed user, call `next()` once, and stop | not executed | TokenValidator.ValidatorAsWritten, TokenValidator.FallThroughExample | TokenValidator.Validator, TokenValidator.ValidatorDecides |
| src/domain/comments-service.ts:69-78 | `readComments` maps `_transformToViewModel` over the query repository's rows, which carry `id` but no `_id`, so `comment._id.toHexString()` throws a TypeError | the first page of a gossip that has at least one comment | answer the page with one view per comment | not executed | CommentsService.ReadCommentsAsWritten, CommentsService.ReadCommentsAsWrittenThrows, CommentsService.ReadCommentsAsWrittenFirstPage | CommentsService.ReadComments, CommentsService.ReadCommentsOnGossip |
| src/application/jwt-service.ts:20-23 | `jwt.verify` throws on an expired access token, and the middleware's catch answers 401, so the refresh-cookie fallback at basic-token-validator.ts:22-45 never runs for an expired token | an expired access token with a refresh cookie that verifies to a stored user | an expired access token yields no id, so the middleware refreshes and attaches the user | not executed | TokenValidator.VerifyJwt, TokenValidator.ExpiredAccessNeverRefreshes | TokenValidator.VerifyAccessLenient, TokenValidator.ExpiredAccessRefreshes |
