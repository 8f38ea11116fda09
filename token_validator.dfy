/** `basicTokenValidator`: takes the access token from an
    `Authorization: Bearer <token>` header, verifies it, falls back to the
    refresh-token cookie, and attaches the user. Signature checking is a
    function the caller supplies: it yields an id, no id, or an exception. */
module TokenValidator {
  import opened Wrappers
  import opened Text
  import opened Models
  import opened Http

  /** The outcome of a JWT verification. */
  datatype Verification = Verified(id: Id) | Rejected | Threw

  /** `[type, token] = authorization?.split(" ") ?? []`, then the token only
      when the type is exactly "Bearer"; absent when there is no header, no
      second word, or another scheme. */
  function BearerToken(header: Option<string>): (r: Option<string>)
    ensures r.Some? ==> header.Some? && ' ' !in r.value
  {
    if header.None? then None
    else
      var parts := Split(header.value);
      if parts[0] == "Bearer" && |parts| >= 2 then Some(parts[1]) else None
  }

  /** A header "Bearer <t> ..." yields `t`, whatever words follow. */
  lemma BearerTokenOfHeader(t: string, rest: seq<string>)
    requires ' ' !in t
    requires forall i :: 0 <= i < |rest| ==> ' ' !in rest[i]
    ensures BearerToken(Some(Join(["Bearer", t] + rest))) == Some(t)
  {
    var parts := ["Bearer", t] + rest;
    forall i | 0 <= i < |parts| ensures ' ' !in parts[i] {
      if i >= 2 {
        assert parts[i] == rest[i - 2];
      }
    }
    SplitJoin(parts);
    assert Split(Join(parts))[0] == "Bearer" && Split(Join(parts))[1] == t;
  }

  /** Any other first word, "bearer" included, yields no token. */
  lemma OtherSchemeRefused(scheme: string, t: string)
    requires scheme != "Bearer" && ' ' !in scheme && ' ' !in t
    ensures BearerToken(Some(Join([scheme, t]))).None?
  {
    SplitJoin([scheme, t]);
  }

  /** A token is the text right after "Bearer ", up to the next space or
      the end of the header. */
  lemma BearerTokenPosition(h: string)
    requires BearerToken(Some(h)).Some?
    ensures var t := BearerToken(Some(h)).value;
      exists rest :: h == "Bearer " + t + rest && (rest == "" || rest[0] == ' ')
  {
    var parts := Split(h);
    var t := parts[1];
    JoinSplit(h);
    assert Join(parts) == "Bearer" + " " + Join(parts[1..]);
    if |parts| == 2 {
      assert Join(parts[1..]) == t;
      assert h == "Bearer " + t + "";
    } else {
      var rest := " " + Join(parts[2..]);
      assert parts[1..][1..] == parts[2..];
      assert Join(parts[1..]) == t + " " + Join(parts[2..]);
      assert h == "Bearer " + t + rest;
    }
  }

  /** `!x` on a string that may be undefined. */
  predicate Falsy(s: Option<string>) {
    s.None? || s.value == ""
  }

  /** `usersRepo.findUserById(id)` followed by the 400 or the attach-and-next. */
  function AttachUser(db: Db, id: Option<Id>): (t: seq<Effect>)
  {
    if id.Some? && id.value in db.users then [SetUser(db.users[id.value]), CallNext] else [Respond(BAD_REQUEST_400)]
  }

  /** The middleware's effects as written. After attaching the user found by
      the refresh token it calls `next` and does not return, so it goes on to
      look up the access id, which is absent on that path, and answers 400. */
  function ValidatorAsWritten(db: Db, header: Option<string>, refreshCookie: Option<string>,
                              verifyAccess: string -> Verification, verifyRefresh: string -> Verification): (t: seq<Effect>)
    ensures 1 <= |t| <= 3
    ensures |t| == 3 ==> t[0].SetUser? && t[1] == CallNext && t[2] == Respond(BAD_REQUEST_400)
  {
    var token := BearerToken(header);
    if Falsy(token) then [Respond(UNAUTHORIZED_401)]
    else match verifyAccess(token.value)
      case Threw => [Respond(UNAUTHORIZED_401)]
      case Verified(id) => AttachUser(db, Some(id))
      case Rejected =>
        if Falsy(refreshCookie) then [Respond(UNAUTHORIZED_401)]
        else match verifyRefresh(refreshCookie.value)
          case Threw => [Respond(UNAUTHORIZED_401)]
          case Rejected => [Respond(FORBIDDEN_403)]
          case Verified(rid) =>
            if rid !in db.users then [Respond(BAD_REQUEST_400)]
            else [SetUser(db.users[rid]), CallNext] + AttachUser(db, None)
  }

  /** The middleware as evidently intended: the refresh branch returns after
      `next`. */
  function Validator(db: Db, header: Option<string>, refreshCookie: Option<string>,
                     verifyAccess: string -> Verification, verifyRefresh: string -> Verification): (t: seq<Effect>)
    ensures |t| == 1 || |t| == 2
    ensures |t| == 1 ==> t[0].Respond?
    ensures |t| == 2 ==> t[0].SetUser? && t[1] == CallNext
  {
    var token := BearerToken(header);
    if Falsy(token) then [Respond(UNAUTHORIZED_401)]
    else match verifyAccess(token.value)
      case Threw => [Respond(UNAUTHORIZED_401)]
      case Verified(id) => AttachUser(db, Some(id))
      case Rejected =>
        if Falsy(refreshCookie) then [Respond(UNAUTHORIZED_401)]
        else match verifyRefresh(refreshCookie.value)
          case Threw => [Respond(UNAUTHORIZED_401)]
          case Rejected => [Respond(FORBIDDEN_403)]
          case Verified(rid) => AttachUser(db, Some(rid))
  }

  /** A request ends in exactly one way: one response, or the stored user
      attached and `next` called once. */
  predicate SingleOutcome(db: Db, t: seq<Effect>) {
    (|t| == 1 && t[0].Respond?)
    || (|t| == 2 && t[0].SetUser? && t[0].user.id in db.users && db.users[t[0].user.id] == t[0].user && t[1] == CallNext)
  }

  /** The corrected middleware always ends in a single outcome; the user it
      attaches is the one the verified token names, and the statuses are
      401 without a token, 401 on an exception, 401 without a refresh cookie,
      403 for a rejected refresh token and 400 for an unknown user. */
  lemma ValidatorDecides(db: Db, header: Option<string>, refreshCookie: Option<string>,
                         verifyAccess: string -> Verification, verifyRefresh: string -> Verification)
    requires UsersKeyed(db.users, db.nextId)
    ensures var t := Validator(db, header, refreshCookie, verifyAccess, verifyRefresh);
      var token := BearerToken(header);
      && SingleOutcome(db, t)
      && (Falsy(token) ==> t == [Respond(UNAUTHORIZED_401)])
      && (!Falsy(token) && verifyAccess(token.value).Verified? ==>
        t == AttachUser(db, Some(verifyAccess(token.value).id)))
      && (!Falsy(token) && verifyAccess(token.value).Threw? ==> t == [Respond(UNAUTHORIZED_401)])
      && (!Falsy(token) && verifyAccess(token.value).Rejected? && Falsy(refreshCookie) ==>
        t == [Respond(UNAUTHORIZED_401)])
      && (!Falsy(token) && verifyAccess(token.value).Rejected? && !Falsy(refreshCookie) ==>
        t == match verifyRefresh(refreshCookie.value)
          case Threw => [Respond(UNAUTHORIZED_401)]
          case Rejected => [Respond(FORBIDDEN_403)]
          case Verified(rid) => AttachUser(db, Some(rid)))
  {
  }

  /** Where the two versions differ: only on a rejected access token with a
      refresh token naming a stored user, where the code as written attaches
      the user, calls `next`, and then also answers 400. */
  lemma AsWrittenFallsThrough(db: Db, header: Option<string>, refreshCookie: Option<string>,
                              verifyAccess: string -> Verification, verifyRefresh: string -> Verification)
    ensures var t := ValidatorAsWritten(db, header, refreshCookie, verifyAccess, verifyRefresh);
      var c := Validator(db, header, refreshCookie, verifyAccess, verifyRefresh);
      var token := BearerToken(header);
      if !Falsy(token) && verifyAccess(token.value).Rejected? && !Falsy(refreshCookie)
        && verifyRefresh(refreshCookie.value).Verified? && verifyRefresh(refreshCookie.value).id in db.users
      then t == c + [Respond(BAD_REQUEST_400)] && |c| == 2 && c[1] == CallNext
      else t == c
  {
  }

  /** A request on which the code as written both calls `next` and answers
      400: "Bearer <token>" where the access token verifies but its payload
      has no `userId` (a token `generateTokens` never signs), and a refresh
      cookie that names a stored user. */
  lemma FallThroughExample(token: string, cookie: string)
    requires ' ' !in token && token != "" && cookie != ""
    ensures var u := User(0, "ann", None, None, "ann@x.io", "h", "basic", None, true, 0, [], [], [], []);
      var db := Db(map[0 := u], map[], map[], map[], 1);
      var t := ValidatorAsWritten(db, Some(Join(["Bearer", token])), Some(cookie), _ => Rejected, _ => Verified(0));
      t == [SetUser(u), CallNext, Respond(BAD_REQUEST_400)] && !SingleOutcome(db, t)
  {
    BearerTokenOfHeader(token, []);
    assert ["Bearer", token] + [] == ["Bearer", token];
  }

  // ---------------------------------------------------------------------------
  // The verification functions the middleware calls
  // ---------------------------------------------------------------------------

  /** What `jwt.verify` reads from a token: whether its signature checks
      under the secret, whether its expiry has passed, and its `userId`
      claim. */
  datatype Claims = Claims(signed: bool, expired: bool, userId: Option<Id>)

  /** `verifyAccessJWT` and `verifyRefreshJWT` as written: `jwt.verify` throws
      on a bad signature and on an expired token; otherwise the payload's
      `userId`, undefined when it has none. */
  function VerifyJwt(c: Claims): (v: Verification)
    ensures v.Threw? <==> !c.signed || c.expired
    ensures v.Rejected? <==> c.signed && !c.expired && c.userId.None?
    ensures v.Verified? ==> c.userId == Some(v.id)
  {
    if !c.signed || c.expired then Threw
    else if c.userId.None? then Rejected
    else Verified(c.userId.value)
  }

  /** As written, an expired access token ends in 401 whatever the refresh
      cookie holds: the exception is caught before the refresh fallback. */
  lemma ExpiredAccessNeverRefreshes(db: Db, header: Option<string>, refreshCookie: Option<string>,
                                    access: string -> Claims, refresh: string -> Claims)
    requires !Falsy(BearerToken(header)) && access(BearerToken(header).value).expired
    ensures ValidatorAsWritten(db, header, refreshCookie, s => VerifyJwt(access(s)), s => VerifyJwt(refresh(s)))
      == [Respond(UNAUTHORIZED_401)]
  {
    assert VerifyJwt(access(BearerToken(header).value)).Threw?;
  }

  /** The access check as evidently intended: a well-signed token past its
      expiry yields no id, so the middleware turns to the refresh token. */
  function VerifyAccessLenient(c: Claims): (v: Verification)
    ensures v.Threw? <==> !c.signed
    ensures v.Rejected? <==> c.signed && (c.expired || c.userId.None?)
    ensures v.Verified? ==> !c.expired && c.userId == Some(v.id)
  {
    if !c.signed then Threw
    else if c.expired || c.userId.None? then Rejected
    else Verified(c.userId.value)
  }

  /** With that check and the corrected middleware, an expired access token
      and a refresh cookie naming a stored user attach that user and call
      `next` once. */
  lemma ExpiredAccessRefreshes(db: Db, header: Option<string>, refreshCookie: Option<string>,
                               access: string -> Claims, refresh: string -> Claims)
    requires !Falsy(BearerToken(header))
    requires access(BearerToken(header).value).signed && access(BearerToken(header).value).expired
    requires !Falsy(refreshCookie)
    requires VerifyJwt(refresh(refreshCookie.value)).Verified?
    requires VerifyJwt(refresh(refreshCookie.value)).id in db.users
    ensures Validator(db, header, refreshCookie, s => VerifyAccessLenient(access(s)), s => VerifyJwt(refresh(s)))
      == [SetUser(db.users[VerifyJwt(refresh(refreshCookie.value)).id]), CallNext]
  {
    assert VerifyAccessLenient(access(BearerToken(header).value)).Rejected?;
  }

  /** The request and response as the middleware sees them: the attached
      user and the effects so far. */
  class Exchange {
    var user: Option<User>
    var effects: seq<Effect>

    constructor ()
      ensures user.None? && effects == []
    {
      user, effects := None, [];
    }

    method Respond(status: nat)
      modifies this
      ensures effects == old(effects) + [Http.Respond(status)] && user == old(user)
    {
      effects := effects + [Http.Respond(status)];
    }

    method Attach(u: User)
      modifies this
      ensures effects == old(effects) + [SetUser(u)] && user == Some(u)
    {
      user := Some(u);
      effects := effects + [SetUser(u)];
    }

    method Next()
      modifies this
      ensures effects == old(effects) + [CallNext] && user == old(user)
    {
      effects := effects + [CallNext];
    }
  }

  /** `basicTokenValidator` step by step, as written: its effects are
      `ValidatorAsWritten`, and the attached user is the last one set. */
  method BasicTokenValidator(ex: Exchange, db: Db, header: Option<string>, refreshCookie: Option<string>,
                             verifyAccess: string -> Verification, verifyRefresh: string -> Verification)
    modifies ex
    ensures ex.effects == old(ex.effects) + ValidatorAsWritten(db, header, refreshCookie, verifyAccess, verifyRefresh)
    ensures var t := ValidatorAsWritten(db, header, refreshCookie, verifyAccess, verifyRefresh);
      ex.user == if t[0].SetUser? then Some(t[0].user) else old(ex.user)
  {
    var currentAccessToken := BearerToken(header);
    if currentAccessToken.None? || currentAccessToken.value == "" {
      ex.Respond(UNAUTHORIZED_401);
      return;
    }
    var userId := verifyAccess(currentAccessToken.value);
    if userId.Threw? {
      ex.Respond(UNAUTHORIZED_401);
      return;
    }
    var accessId: Option<Id> := if userId.Verified? then Some(userId.id) else None;
    if accessId.None? {
      if refreshCookie.None? || refreshCookie.value == "" {
        ex.Respond(UNAUTHORIZED_401);
        return;
      }
      var refreshId := verifyRefresh(refreshCookie.value);
      if refreshId.Threw? {
        ex.Respond(UNAUTHORIZED_401);
        return;
      }
      if refreshId.Rejected? {
        ex.Respond(FORBIDDEN_403);
        return;
      }
      if refreshId.id !in db.users {
        ex.Respond(BAD_REQUEST_400);
        return;
      }
      ex.Attach(db.users[refreshId.id]);
      ex.Next();
    }
    if accessId.None? || accessId.value !in db.users {
      ex.Respond(BAD_REQUEST_400);
      return;
    }
    ex.Attach(db.users[accessId.value]);
    ex.Next();
  }
}
