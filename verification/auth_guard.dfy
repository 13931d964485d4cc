/**
  The global authentication guard: public routes pass; otherwise the bearer
  token of the `Authorization` header must verify as an access token, or, when
  it does not, a refresh token (cookie `refresh_token`, else header
  `x-refresh-token`) must verify, in which case a fresh access token is issued
  in the `x-access-token` response header.

  JWT verification and signing are the oracles `verifyAccess`, `verifyRefresh`
  and `sign` (`None` = the library throws); the secrets are inside them.
*/
module AuthGuard {
  import opened Wrappers

  // ---------------------------------------------------------------------------
  // String.prototype.split with a one-character separator.
  // ---------------------------------------------------------------------------

  /** Glues fields back together with the separator between them. */
  function Join(parts: seq<string>, sep: char): string
    requires |parts| >= 1
  {
    if |parts| == 1 then parts[0] else parts[0] + [sep] + Join(parts[1..], sep)
  }

  /** `s.split(sep)`: the fields between separators, empty fields included, at least one. */
  function Split(s: string, sep: char): (parts: seq<string>)
    ensures |parts| >= 1
    ensures forall i :: 0 <= i < |parts| ==> sep !in parts[i]
    ensures Join(parts, sep) == s
    decreases |s|
  {
    if s == [] then [""]
    else
      var rest := Split(s[1..], sep);
      if s[0] == sep then
        assert s == [sep] + s[1..];
        [""] + rest
      else
        var parts := [[s[0]] + rest[0]] + rest[1..];
        assert parts[1..] == rest[1..];
        assert s == [s[0]] + s[1..];
        parts
  }

  /** Splitting at the first separator: the text before it is the first field. */
  lemma {:induction false} SplitAtFirst(a: string, b: string, sep: char)
    requires sep !in a
    ensures Split(a + [sep] + b, sep) == [a] + Split(b, sep)
    decreases |a|
  {
    if a == [] {
      assert a + [sep] + b == [sep] + b;
      assert ([sep] + b)[1..] == b;
    } else {
      SplitAtFirst(a[1..], b, sep);
      assert (a + [sep] + b)[1..] == a[1..] + [sep] + b;
      assert [a[0]] + a[1..] == a;
    }
  }

  /** A string without the separator is a single field. */
  lemma {:induction false} SplitNoSeparator(a: string, sep: char)
    requires sep !in a
    ensures Split(a, sep) == [a]
    decreases |a|
  {
    if a != [] {
      SplitNoSeparator(a[1..], sep);
      assert [a[0]] + a[1..] == a;
    }
  }

  /** Split undoes Join for separator-free fields (Join undoes Split by Split's contract). */
  lemma {:induction false} SplitJoin(parts: seq<string>, sep: char)
    requires |parts| >= 1
    requires forall i :: 0 <= i < |parts| ==> sep !in parts[i]
    ensures Split(Join(parts, sep), sep) == parts
  {
    if |parts| == 1 {
      SplitNoSeparator(parts[0], sep);
    } else {
      SplitJoin(parts[1..], sep);
      SplitAtFirst(parts[0], Join(parts[1..], sep), sep);
    }
  }

  /** The first field is a prefix that ends at the end of the string or at a separator. */
  lemma FirstFieldIsPrefix(parts: seq<string>, sep: char)
    requires |parts| >= 1
    ensures var s, f := Join(parts, sep), parts[0];
            |f| <= |s| && s[..|f|] == f && (|parts| >= 2 ==> |f| < |s| && s[|f|] == sep)
  {
    if |parts| >= 2 {
      var s := Join(parts, sep);
      assert s == parts[0] + [sep] + Join(parts[1..], sep);
    }
  }

  // ---------------------------------------------------------------------------
  // extractTokenFromHeader
  // ---------------------------------------------------------------------------

  const BearerPrefix: string := "Bearer "

  /** How the fields of a header relate to its "Bearer " prefix. */
  lemma BearerFields(h: string)
    ensures var fields := Split(h, ' ');
            (fields[0] == "Bearer" && |fields| >= 2) <==> (|h| >= 7 && h[..7] == BearerPrefix)
    ensures var fields := Split(h, ' ');
            fields[0] == "Bearer" && |fields| >= 2 ==>
              var t := fields[1];
              && ' ' !in t
              && |h| >= 7 + |t| && h[7..7 + |t|] == t
              && (|h| == 7 + |t| || h[7 + |t|] == ' ')
  {
    var fields := Split(h, ' ');
    if |h| >= 7 && h[..7] == BearerPrefix {
      assert h == "Bearer" + [' '] + h[7..];
      SplitAtFirst("Bearer", h[7..], ' ');
      FirstFieldIsPrefix(Split(h[7..], ' '), ' ');
    } else if fields[0] == "Bearer" && |fields| >= 2 {
      FirstFieldIsPrefix(fields, ' ');
    }
  }

  /**
    The bearer token of an `Authorization` header: the header is split at every
    space, and when the first field is exactly "Bearer" the second field is the
    token; a missing header, another scheme or a header without a second field
    gives none.
  */
  function ExtractTokenFromHeader(authorization: Option<string>): (token: Option<string>)
    ensures authorization.None? ==> token.None?
    ensures token.Some? <==>
              authorization.Some? && |authorization.value| >= 7 && authorization.value[..7] == BearerPrefix
    ensures token.Some? ==>
              var h, t := authorization.value, token.value;
              && ' ' !in t
              && |h| >= 7 + |t| && h[7..7 + |t|] == t
              && (|h| == 7 + |t| || h[7 + |t|] == ' ')
  {
    match authorization
    case None => None
    case Some(h) =>
      BearerFields(h);
      var fields := Split(h, ' ');
      if fields[0] == "Bearer" && |fields| >= 2 then Some(fields[1]) else None
  }

  /** "Bearer <t> <anything>" yields exactly t, for any separator-free t, the empty one included. */
  lemma BearerTokenRoundTrip(t: string, rest: Option<string>)
    requires ' ' !in t
    ensures var h := if rest.Some? then BearerPrefix + t + " " + rest.value else BearerPrefix + t;
            ExtractTokenFromHeader(Some(h)) == Some(t)
  {
    var h := if rest.Some? then BearerPrefix + t + " " + rest.value else BearerPrefix + t;
    var tail := if rest.Some? then t + " " + rest.value else t;
    assert h == "Bearer" + [' '] + tail;
    SplitAtFirst("Bearer", tail, ' ');
    if rest.Some? {
      SplitAtFirst(t, rest.value, ' ');
    } else {
      SplitNoSeparator(t, ' ');
    }
  }

  /** The scheme is compared case-sensitively: "bearer t" carries no token. */
  lemma SchemeIsCaseSensitive(t: string)
    ensures ExtractTokenFromHeader(Some("bearer " + t)) == None
    ensures ExtractTokenFromHeader(Some("Bearer")) == None
  {
    assert ("bearer " + t)[..7] == "bearer ";
  }

  // ---------------------------------------------------------------------------
  // canActivate
  // ---------------------------------------------------------------------------

  /** The claims of a verified token. */
  datatype Payload = Payload(username: string, sub: string, issuedAt: int, expiresAt: int)

  /** What a new access token is signed over. */
  datatype Claims = Claims(username: string, sub: string)

  datatype Request = Request(
    authorization: Option<string>,
    refreshCookie: Option<string>,
    refreshHeader: Option<string>)

  /**
    The guard's outcome: allow, with the `request.user` it sets and the
    `x-access-token` header it writes; or an UnauthorizedException.
  */
  datatype Decision =
    | Allow(user: Option<Payload>, newAccessToken: Option<string>)
    | Unauthorized(message: string, description: Option<string>)

  const NotAllowedMsg: string := "You're not allowed to access this service"
  const NoRefreshTokenMsg: string := "Refresh token not provided"
  const RefreshFailedCode: string := "1003"

  /** Whether a route is public: the handler's flag wins when it is set, else the controller's, else not public. */
  function IsPublic(handlerFlag: Option<bool>, classFlag: Option<bool>): bool {
    match handlerFlag
    case Some(b) => b
    case None => classFlag.GetOr(false)
  }

  /** A JavaScript-truthy string: present and non-empty. */
  predicate Truthy(s: Option<string>) {
    s.Some? && s.value != ""
  }

  /**
    The refresh token the guard falls back on: the `refresh_token` cookie when
    it is a non-empty string, otherwise the `x-refresh-token` header as it is.
  */
  function RefreshToken(req: Request): (r: Option<string>)
    ensures r == req.refreshCookie || r == req.refreshHeader
    ensures Truthy(r) <==> Truthy(req.refreshCookie) || Truthy(req.refreshHeader)
    ensures Truthy(req.refreshCookie) ==> r == req.refreshCookie
  {
    if Truthy(req.refreshCookie) then req.refreshCookie else req.refreshHeader
  }

  function CanActivate(
    handlerFlag: Option<bool>, classFlag: Option<bool>, req: Request,
    verifyAccess: string -> Option<Payload>,
    verifyRefresh: string -> Option<Payload>,
    sign: Claims -> Option<string>): (d: Decision)
    ensures IsPublic(handlerFlag, classFlag) ==> d == Allow(None, None)
    ensures d.Allow? && !IsPublic(handlerFlag, classFlag) ==>
              Truthy(ExtractTokenFromHeader(req.authorization)) && d.user.Some?
    ensures d.Allow? && d.newAccessToken.Some? ==>
              && verifyAccess(ExtractTokenFromHeader(req.authorization).value).None?
              && Truthy(RefreshToken(req))
              && verifyRefresh(RefreshToken(req).value) == d.user
    ensures d == Unauthorized(NotAllowedMsg, Some(RefreshFailedCode)) ==> Truthy(RefreshToken(req))
  {
    if IsPublic(handlerFlag, classFlag) then Allow(None, None)
    else
      var token := ExtractTokenFromHeader(req.authorization);
      if !Truthy(token) then Unauthorized(NotAllowedMsg, None)
      else
        match verifyAccess(token.value)
        case Some(payload) => Allow(Some(payload), None)
        case None =>
          var refresh := RefreshToken(req);
          if !Truthy(refresh) then Unauthorized(NoRefreshTokenMsg, None)
          else
            match verifyRefresh(refresh.value)
            case None => Unauthorized(NotAllowedMsg, Some(RefreshFailedCode))
            case Some(rp) =>
              match sign(Claims(rp.username, rp.sub))
              case None => Unauthorized(NotAllowedMsg, Some(RefreshFailedCode))
              case Some(newToken) => Allow(Some(rp), Some(newToken))
  }

  /** The complete decision table of the guard for a route that is not public. */
  lemma GuardDecisionTable(
    handlerFlag: Option<bool>, classFlag: Option<bool>, req: Request,
    verifyAccess: string -> Option<Payload>,
    verifyRefresh: string -> Option<Payload>,
    sign: Claims -> Option<string>)
    requires !IsPublic(handlerFlag, classFlag)
    ensures var d := CanActivate(handlerFlag, classFlag, req, verifyAccess, verifyRefresh, sign);
            var token := ExtractTokenFromHeader(req.authorization);
            var refresh := RefreshToken(req);
            && (!Truthy(token) ==> d == Unauthorized(NotAllowedMsg, None))
            && (Truthy(token) && verifyAccess(token.value).Some? ==>
                  d == Allow(verifyAccess(token.value), None))
            && (Truthy(token) && verifyAccess(token.value).None? && !Truthy(refresh) ==>
                  d == Unauthorized(NoRefreshTokenMsg, None))
            && (Truthy(token) && verifyAccess(token.value).None? && Truthy(refresh)
                && verifyRefresh(refresh.value).None? ==>
                  d == Unauthorized(NotAllowedMsg, Some(RefreshFailedCode)))
            && (Truthy(token) && verifyAccess(token.value).None? && Truthy(refresh)
                && verifyRefresh(refresh.value).Some? ==>
                  var rp := verifyRefresh(refresh.value).value;
                  var signed := sign(Claims(rp.username, rp.sub));
                  d == (if signed.Some? then Allow(Some(rp), signed)
                        else Unauthorized(NotAllowedMsg, Some(RefreshFailedCode))))
  {
  }

  /** "Bearer " with nothing after it is a present but empty token, and is refused. */
  lemma EmptyBearerTokenRefused(
    req: Request,
    verifyAccess: string -> Option<Payload>,
    verifyRefresh: string -> Option<Payload>,
    sign: Claims -> Option<string>)
    requires req.authorization == Some(BearerPrefix)
    ensures ExtractTokenFromHeader(req.authorization) == Some("")
    ensures CanActivate(None, None, req, verifyAccess, verifyRefresh, sign) == Unauthorized(NotAllowedMsg, None)
  {
    BearerTokenRoundTrip("", None);
    assert BearerPrefix + "" == BearerPrefix;
  }
}
