/** `checkUserPermission`: a request on a user's own resource proceeds only
    when the authenticated user's id, as a string, is the path's `userId`. */
module UserPermission {
  import opened Wrappers
  import opened Text
  import opened Models
  import opened Http

  /** The decision: no authenticated user makes `req.user._id` throw, which
      is answered with 500; a different id with 403; otherwise `next`. */
  function CheckUserPermission(requester: Option<User>, userIdParam: string): (e: Effect)
    ensures e == CallNext || e == Respond(FORBIDDEN_403) || e == Respond(INTERNAL_SERVER_ERROR_500)
    ensures e == CallNext ==> requester.Some?
  {
    if requester.None? then Respond(INTERNAL_SERVER_ERROR_500)
    else if IdString(requester.value.id) != userIdParam then Respond(FORBIDDEN_403)
    else CallNext
  }

  /** The request proceeds exactly when the path names the requester's id in
      its string form; a path that proceeds parses back to that id, and a
      requester always may act on the string form of its own id. */
  lemma PermissionDecides(requester: Option<User>, userIdParam: string)
    ensures var e := CheckUserPermission(requester, userIdParam);
      && (e == CallNext <==> requester.Some? && userIdParam == IdString(requester.value.id))
      && (e == CallNext ==> ParseId(userIdParam) == Some(requester.value.id))
      && (e == Respond(FORBIDDEN_403) <==> requester.Some? && userIdParam != IdString(requester.value.id))
      && (e == Respond(INTERNAL_SERVER_ERROR_500) <==> requester.None?)
  {
    if requester.Some? {
      ParseIdString(requester.value.id);
    }
  }

  /** Two users get through on the same path only when they are the same id. */
  lemma PermissionIsPerUser(a: User, b: User, userIdParam: string)
    requires CheckUserPermission(Some(a), userIdParam) == CallNext
    requires CheckUserPermission(Some(b), userIdParam) == CallNext
    ensures a.id == b.id
  {
    IdStringInjective(a.id, b.id);
  }
}
