/** What a handler answers: a status code from the application's table of
    statuses and a JSON body. */
module Http {
  import opened Wrappers
  import opened Text
  import opened Models

  const OK_200: nat := 200
  const CREATED_201: nat := 201
  const BAD_REQUEST_400: nat := 400
  const UNAUTHORIZED_401: nat := 401
  const FORBIDDEN_403: nat := 403
  const NOT_FOUND_404: nat := 404
  const UNPROCESSABLE_CONTENT_422: nat := 422
  const INTERNAL_SERVER_ERROR_500: nat := 500

  /** The JSON bodies the handlers send. */
  datatype Body =
    | Message(text: string)
    | GossipBody(gossip: Gossip)
    | UpdatedGossip(updated: Option<Gossip>)
    | DeletedGossip(text: string, deleted: Option<Gossip>)
    | CommentBody(comment: Comment)
    | DeletedComment(text: string, removed: Option<Comment>)
    | Likes(ids: seq<Id>)
    | UserBody(user: User)

  datatype Response = Response(status: nat, body: Body)

  /** What a middleware does with a request, in order: attach the user,
      hand on to the next handler, or answer with a status. */
  datatype Effect = SetUser(user: User) | CallNext | Respond(status: nat)

  /** The ownership checks compare ids by their string forms
      (`a.toString() !== b.toString()`). */
  predicate SameIdString(a: Id, b: Id) {
    IdString(a) == IdString(b)
  }

  /** Comparing the string forms is comparing the ids. */
  lemma SameIdStringIff(a: Id, b: Id)
    ensures SameIdString(a, b) <==> a == b
  {
    IdStringInjective(a, b);
  }
}
