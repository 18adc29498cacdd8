/** The per-request authenticator. It lets some requests through untouched,
    reads an API key and an access token from the `Authorization: Bearer
    <apiKey> <accessToken>` header (the scheme name of section 2.1 of RFC 6750
    with two words after it) or from fallback headers and cookies, resolves the
    user by token and then by key, silently reissues an access token that was
    not accepted when the key was, and either passes the request on or answers
    401 itself. */
module AuthenticationFilter {
  import opened Wrappers
  import opened JavaNumbers
  import opened Text
  import opened Tables
  import opened ErrorCodes
  import opened Http
  import opened Users
  import opened Jwt
  import opened RequestContext

  const PERMIT_PATHS: seq<string> := ["/api/user/join", "/api/user/login", "/api/user/reissue"]
  const JSON_UTF8: string := "application/json;charset=UTF-8"

  /** A read of the pins collection or of one pin. */
  predicate IsPinsRead(req: Request) {
    EqualsIgnoreCase(req.httpMethod, "GET") && (req.uri == "/api/pins" || StartsWith(req.uri, "/api/pins/"))
  }

  /** The three early exits: preflight, pin reads, and everything outside
      `/api/` or on the sign-up, log-in and reissue paths. */
  predicate Bypasses(req: Request) {
    || EqualsIgnoreCase(req.httpMethod, "OPTIONS")
    || IsPinsRead(req)
    || !StartsWith(req.uri, "/api/")
    || req.uri in PERMIT_PATHS
  }

  /** The first candidate that is not blank, or "" when every one is. */
  function FirstNonBlank(candidates: seq<string>): (r: string)
    ensures r == "" || (r in candidates && !IsBlank(r))
    ensures (forall k :: 0 <= k < |candidates| ==> IsBlank(candidates[k])) ==> r == ""
  {
    if candidates == [] then ""
    else if !IsBlank(candidates[0]) then candidates[0]
    else
      var r := FirstNonBlank(candidates[1..]);
      assert forall k :: 1 <= k < |candidates| ==> candidates[k] == candidates[1..][k - 1];
      r
  }

  /** A candidate preceded only by blank ones is the one chosen. */
  lemma {:induction false} FirstNonBlankIsFirst(candidates: seq<string>, k: nat)
    requires k < |candidates| && !IsBlank(candidates[k])
    requires forall i :: 0 <= i < k ==> IsBlank(candidates[i])
    ensures FirstNonBlank(candidates) == candidates[k]
  {
    if k > 0 {
      assert candidates[1..][k - 1] == candidates[k];
      FirstNonBlankIsFirst(candidates[1..], k - 1);
    }
  }

  function Header(req: Request, name: string): string {
    HeaderValue(req.headers, name).GetOr("")
  }

  function CookieOf(req: Request, name: string): string {
    Rq.CookieValue(req.cookies, name, "")
  }

  /** The words of the `Authorization` header: none when it is blank,
      `None` when it is present but does not start with "Bearer ". */
  function BearerWords(req: Request): Option<seq<string>> {
    var authHeader := Header(req, "Authorization");
    if IsBlank(authHeader) then Some([])
    else if !StartsWith(authHeader, "Bearer ") then None
    else Some(SplitSpaceLimit3(authHeader))
  }

  datatype Credentials = Credentials(apiKey: string, accessToken: string)
  {
    predicate HasApiKey() { !IsBlank(apiKey) }
    predicate HasAccess() { !IsBlank(accessToken) }
  }

  /** The API key comes from the `X-API-Key` header, the second Bearer word,
      the `apiKey` header or the `apiKey` cookie, the first non-blank one
      winning; the access token from the third Bearer word, the
      `accessToken` header or the `accessToken` cookie. */
  function ExtractCredentials(req: Request): Option<Credentials> {
    match BearerWords(req)
    case None => None
    case Some(bits) =>
      Some(Credentials(
        FirstNonBlank([Header(req, "X-API-Key"), if |bits| >= 2 then bits[1] else "",
                       Header(req, "apiKey"), CookieOf(req, "apiKey")]),
        FirstNonBlank([if |bits| == 3 then bits[2] else "",
                       Header(req, "accessToken"), CookieOf(req, "accessToken")])))
  }

  /** The user an access token stands for: it verifies, its payload reads,
      and its `id` is a row of the user table. */
  function TokenUser(token: string, users: UserTable, provider: JwtTokenProvider, now: int): Option<User> {
    if !provider.IsValid(token, now) then None
    else match provider.PayloadOrNull(token, now)
      case None => None
      case Some(payload) => FindById(users, payload.id)
  }

  /** `UserService.genAccessToken`. */
  function GenAccessToken(provider: JwtTokenProvider, u: User, now: int): string {
    provider.GenerateAccessToken(Some(u.id), Some(u.email), Some(u.userName), now).value
  }

  datatype Outcome =
    | PassThrough                                      // bypassed before reading any credential
    | Anonymous                                        // no credential at all
    | Authenticated(user: User, reissued: Option<string>)
    | Rejected(code: ErrorCode)                        // 401 written, chain not called

  function Resolve(c: Credentials, users: UserTable, provider: JwtTokenProvider, now: int): Outcome {
    if !c.HasApiKey() && !c.HasAccess() then Anonymous
    else match (if c.HasAccess() then TokenUser(c.accessToken, users, provider, now) else None)
      case Some(u) => Authenticated(u, None)
      case None =>
        if !c.HasApiKey() then Rejected(INVALID_ACCESS_TOKEN)
        else match FindByApiKey(users, c.apiKey)
          case None => Rejected(INVALID_API_KEY)
          case Some(u) => Authenticated(u, if c.HasAccess() then Some(GenAccessToken(provider, u, now)) else None)
  }

  /** What one run of the filter decides for a request, given the user table,
      the token provider and the clock. */
  function Decide(req: Request, users: UserTable, provider: JwtTokenProvider, now: int): Outcome {
    if Bypasses(req) then PassThrough
    else match ExtractCredentials(req)
      case None => Rejected(INVALID_ACCESS_TOKEN)
      case Some(c) => Resolve(c, users, provider, now)
  }

  // ---- the response the filter leaves behind ----

  datatype ResponseState = ResponseState(
    status: int, contentType: string, body: string,
    headers: seq<Http.Header>, cookies: seq<SetCookie>, committed: bool)

  ghost function Snapshot(res: Response): ResponseState
    reads res
  {
    ResponseState(res.status, res.contentType, res.body, res.headers, res.cookies, res.committed)
  }

  /** The filter's own 401 body: one JSON line without a `data` field. */
  function Body401(code: ErrorCode): string {
    "{\"errorCode\":\"" + LongToDecimal(Code(code)) + "\",\"msg\":\"" + Message(code) + "\"}\n"
  }

  /** `write401`: nothing on a committed response; otherwise the code's
      status, JSON content type and body, flushed. */
  function Written401(s: ResponseState, code: ErrorCode): ResponseState {
    if s.committed then s
    else s.(status := Status(code).Value(), contentType := JSON_UTF8, body := s.body + Body401(code), committed := true)
  }

  function Effect(s: ResponseState, o: Outcome, secure: bool): ResponseState {
    match o
    case Rejected(code) => Written401(s, code)
    case Authenticated(_, Some(t)) =>
      s.(cookies := s.cookies + [SessionCookie("accessToken", Some(t), secure)],
         headers := Filter(s.headers, Http.OtherName("accessToken"))
                    + [Http.Header("accessToken", t)])
    case _ => s
  }

  method Write401(res: Response, code: ErrorCode)
    modifies res
    ensures Snapshot(res) == Written401(old(Snapshot(res)), code)
  {
    if res.committed {
      return;
    }
    res.SetStatus(Status(code).Value());
    res.SetContentType(JSON_UTF8);
    res.Write(Body401(code));
    res.Flush();
  }

  /** Trying one more candidate in front. */
  lemma FirstNonBlankCons(x: string, rest: seq<string>)
    ensures FirstNonBlank([x] + rest) == if !IsBlank(x) then x else FirstNonBlank(rest)
  {
    assert ([x] + rest)[1..] == rest;
  }

  lemma FirstNonBlank3(a: string, b: string, c: string)
    ensures FirstNonBlank([a, b, c]) == if !IsBlank(a) then a else FirstNonBlank([b, c])
  {
    FirstNonBlankCons(a, [b, c]);
  }

  lemma FirstNonBlank4(a: string, b: string, c: string, d: string)
    ensures FirstNonBlank([a, b, c, d]) == if !IsBlank(a) then a else if !IsBlank(b) then b else FirstNonBlank([c, d])
  {
    FirstNonBlankCons(a, [b, c, d]);
    FirstNonBlankCons(b, [c, d]);
  }

  /** Replaces a blank `current` by the named header, then by the named
      cookie, the last of which is never blank unless it is "". */
  method FallBack(rq: Rq, current: string, name: string) returns (r: string)
    ensures r == if !IsBlank(current) then current else FirstNonBlank([Header(rq.request, name), CookieOf(rq.request, name)])
  {
    r := current;
    if IsBlank(r) {
      r := rq.GetHeader(name, "");
    }
    if IsBlank(r) {
      r := rq.GetCookieValue(name, "");
    }
    var cookie := CookieOf(rq.request, name);
    FirstNonBlankCons(cookie, []);
    FirstNonBlankCons(Header(rq.request, name), [cookie]);
  }

  /** The credential-reading half of `doFilterInternal`: `None` when the
      `Authorization` header is present but not a Bearer header. */
  method ReadCredentials(rq: Rq) returns (c: Option<Credentials>)
    ensures c == ExtractCredentials(rq.request)
  {
    var req := rq.request;
    var apiKey := rq.GetHeader("X-API-Key", "");
    var accessToken := "";
    ghost var bits: seq<string> := [];

    var authHeader := rq.GetHeader("Authorization", "");
    if !IsBlank(authHeader) {
      if !StartsWith(authHeader, "Bearer ") {
        return None;
      }
      var words := SplitSpaceLimit3(authHeader);
      bits := words;
      if |words| >= 2 && IsBlank(apiKey) {
        apiKey := words[1];
      }
      if |words| == 3 {
        accessToken := words[2];
      }
    }
    assert BearerWords(req) == Some(bits);
    ghost var second := if |bits| >= 2 then bits[1] else "";
    ghost var third := if |bits| == 3 then bits[2] else "";
    assert !IsBlank(apiKey) ==> apiKey == (if !IsBlank(Header(req, "X-API-Key")) then Header(req, "X-API-Key") else second);
    assert IsBlank(apiKey) ==> IsBlank(Header(req, "X-API-Key")) && IsBlank(second);
    assert !IsBlank(accessToken) ==> accessToken == third;
    assert IsBlank(accessToken) ==> IsBlank(third);

    var key := FallBack(rq, apiKey, "apiKey");
    var token := FallBack(rq, accessToken, "accessToken");
    FirstNonBlank4(Header(req, "X-API-Key"), second, Header(req, "apiKey"), CookieOf(req, "apiKey"));
    FirstNonBlank3(third, Header(req, "accessToken"), CookieOf(req, "accessToken"));
    c := Some(Credentials(key, token));
  }

  /** The silent reissue: a fresh access token for the user, set as the
      `accessToken` cookie and as the `accessToken` response header. */
  method Reissue(rq: Rq, provider: JwtTokenProvider, u: User, now: int)
    modifies rq.response
    ensures Snapshot(rq.response) ==
      Effect(old(Snapshot(rq.response)), Authenticated(u, Some(GenAccessToken(provider, u, now))), rq.request.secure)
  {
    var newAccess := GenAccessToken(provider, u, now);
    rq.SetCookie("accessToken", Some(newAccess));
    rq.SetHeader("accessToken", newAccess);
  }

  /** The user-resolving half of `doFilterInternal`, once credentials are read. */
  method Authenticate(rq: Rq, c: Credentials, users: UserTable, provider: JwtTokenProvider, now: int)
    returns (chainCalled: bool, authentication: Option<Authentication>)
    modifies rq.response
    ensures var o := Resolve(c, users, provider, now);
      && (chainCalled <==> !o.Rejected?)
      && authentication == (if o.Authenticated? then Some(Authentication(UserPrincipal(o.user), ["ROLE_USER"])) else None)
      && Snapshot(rq.response) == Effect(old(Snapshot(rq.response)), o, rq.request.secure)
  {
    var hasApiKey := !IsBlank(c.apiKey);
    var hasAccess := !IsBlank(c.accessToken);

    if !hasApiKey && !hasAccess {
      return true, None;
    }

    var user: Option<User> := None;
    var accessValid := false;

    if hasAccess && provider.IsValid(c.accessToken, now) {
      var payload := provider.PayloadOrNull(c.accessToken, now);
      if payload.Some? {
        var u := FindById(users, payload.value.id);
        if u.Some? {
          user := u;
          accessValid := true;
        }
      }
    }
    assert user == (if hasAccess then TokenUser(c.accessToken, users, provider, now) else None);

    if user.None? && hasApiKey {
      var u := FindByApiKey(users, c.apiKey);
      if u.None? {
        Write401(rq.response, INVALID_API_KEY);
        return false, None;
      }
      user := u;
    }

    if user.None? {
      Write401(rq.response, INVALID_ACCESS_TOKEN);
      return false, None;
    }

    if hasAccess && !accessValid && hasApiKey {
      Reissue(rq, provider, user.value, now);
    }

    authentication := Some(Authentication(UserPrincipal(user.value), ["ROLE_USER"]));
    chainCalled := true;
  }

  /** `doFilterInternal`. It returns whether the chain was called and the
      authentication it put in the security context. */
  method DoFilterInternal(rq: Rq, users: UserTable, provider: JwtTokenProvider, now: int)
    returns (chainCalled: bool, authentication: Option<Authentication>)
    modifies rq.response
    ensures var o := Decide(rq.request, users, provider, now);
      && (chainCalled <==> !o.Rejected?)
      && authentication == (if o.Authenticated? then Some(Authentication(UserPrincipal(o.user), ["ROLE_USER"])) else None)
      && Snapshot(rq.response) == Effect(old(Snapshot(rq.response)), o, rq.request.secure)
  {
    var uri := rq.request.uri;
    var verb := rq.request.httpMethod;

    if EqualsIgnoreCase(verb, "OPTIONS") {
      return true, None;
    }
    if EqualsIgnoreCase(verb, "GET") && (uri == "/api/pins" || StartsWith(uri, "/api/pins/")) {
      return true, None;
    }
    if !StartsWith(uri, "/api/") || uri in PERMIT_PATHS {
      return true, None;
    }

    var credentials := ReadCredentials(rq);
    if credentials.None? {
      Write401(rq.response, INVALID_ACCESS_TOKEN);
      return false, None;
    }
    chainCalled, authentication := Authenticate(rq, credentials.value, users, provider, now);
  }

  // ---- properties of the decision ----

  /** A request the filter lets through early is let through whatever
      headers and cookies it carries: no credential is read and no 401 is
      written, a malformed `Authorization` header included. */
  lemma BypassIgnoresCredentials(req: Request, users: UserTable, provider: JwtTokenProvider, now: int)
    requires Bypasses(req)
    ensures forall headers: seq<Header>, cookies: seq<Cookie> ::
      Decide(req.(headers := headers, cookies := cookies), users, provider, now) == PassThrough
  {
  }

  /** A new access token is issued exactly when a token was sent, it did not
      resolve to a user, and an API key was sent and resolved. */
  lemma ReissueExactlyWhen(c: Credentials, users: UserTable, provider: JwtTokenProvider, now: int)
    ensures var o := Resolve(c, users, provider, now);
      o.Authenticated? && o.reissued.Some? <==>
        && c.HasAccess() && TokenUser(c.accessToken, users, provider, now).None?
        && c.HasApiKey() && FindByApiKey(users, c.apiKey).Some?
  {
  }

  /** The API key in the `X-API-Key` header wins over every other source, and
      a non-blank Bearer key wins over the fallback header and cookie. */
  lemma ApiKeyPrecedence(req: Request)
    requires BearerWords(req).Some?
    ensures var c := ExtractCredentials(req).value;
      && (!IsBlank(Header(req, "X-API-Key")) ==> c.apiKey == Header(req, "X-API-Key"))
      && (var bits := BearerWords(req).value;
          IsBlank(Header(req, "X-API-Key")) && |bits| >= 2 && !IsBlank(bits[1]) ==> c.apiKey == bits[1])
  {
    var bits := BearerWords(req).value;
    FirstNonBlank4(Header(req, "X-API-Key"), if |bits| >= 2 then bits[1] else "",
                   Header(req, "apiKey"), CookieOf(req, "apiKey"));
  }

  /** A present `Authorization` header that is not a Bearer header is
      refused with INVALID_ACCESS_TOKEN on every path the filter guards,
      whatever keys or tokens the other headers and the cookies carry. */
  lemma MalformedAuthorizationRejected(req: Request, users: UserTable, provider: JwtTokenProvider, now: int)
    requires !Bypasses(req)
    requires var h := Header(req, "Authorization"); !IsBlank(h) && !StartsWith(h, "Bearer ")
    ensures forall cookies: seq<Cookie> ::
      Decide(req.(cookies := cookies), users, provider, now) == Rejected(INVALID_ACCESS_TOKEN)
  {
  }

  /** Requests without any credential go on anonymously; on a guarded path
      the routing rules then answer 401 for them. */
  lemma NoCredentialsIsAnonymous(req: Request, users: UserTable, provider: JwtTokenProvider, now: int)
    requires !Bypasses(req) && ExtractCredentials(req).Some?
    ensures var c := ExtractCredentials(req).value;
      Decide(req, users, provider, now) == Anonymous <==> !c.HasApiKey() && !c.HasAccess()
  {
  }

  /** With no `Authorization` header, the `accessToken` header is the token. */
  lemma AccessTokenHeaderRead(req: Request, token: string)
    requires HeaderValue(req.headers, "Authorization").None?
    requires HeaderValue(req.headers, "accessToken") == Some(token) && !IsBlank(token)
    ensures ExtractCredentials(req).Some? && ExtractCredentials(req).value.accessToken == token
  {
    assert BearerWords(req) == Some([]);
    FirstNonBlank3("", token, CookieOf(req, "accessToken"));
  }

  /** An access token this provider issued for a user of the table, presented
      before it expires, authenticates that user without a reissue; no API
      key is needed. */
  lemma IssuedAccessTokenResolves(c: Credentials, users: UserTable, provider: JwtTokenProvider,
                                  u: User, issuedAt: int, now: int)
    requires Faithful(provider.codec) && InLongRange(u.id) && u in users
    requires c.accessToken == GenAccessToken(provider, u, issuedAt)
    requires now <= provider.ExpirySeconds(provider.accessExpMs, issuedAt) * 1000
    ensures var o := Resolve(c, users, provider, now);
      o.Authenticated? && o.user.id == u.id && o.user in users && o.reissued.None?
  {
    var j := Jws(AccessClaims(u.id, u.email, u.userName), Some(LongToDecimal(u.id)),
                 MillisToSeconds(issuedAt), Some(provider.ExpirySeconds(provider.accessExpMs, issuedAt)), provider.key);
    assert c.accessToken == provider.codec.compact(j);
    AccessTokenRoundTrip(provider, u.id, u.email, u.userName, issuedAt, now);
    assert TokenUser(c.accessToken, users, provider, now) == FindById(users, u.id);
  }

  /** The same, end to end through the filter, for the token sent in the
      `accessToken` header. */
  lemma IssuedAccessTokenAuthenticates(req: Request, users: UserTable, provider: JwtTokenProvider,
                                       u: User, issuedAt: int, now: int)
    requires Faithful(provider.codec) && InLongRange(u.id) && u in users
    requires !Bypasses(req) && HeaderValue(req.headers, "Authorization").None?
    requires HeaderValue(req.headers, "accessToken") == Some(GenAccessToken(provider, u, issuedAt))
    requires now <= provider.ExpirySeconds(provider.accessExpMs, issuedAt) * 1000
    ensures var o := Decide(req, users, provider, now);
      o.Authenticated? && o.user.id == u.id && o.user in users && o.reissued.None?
  {
    var token := GenAccessToken(provider, u, issuedAt);
    var j := Jws(AccessClaims(u.id, u.email, u.userName), Some(LongToDecimal(u.id)),
                 MillisToSeconds(issuedAt), Some(provider.ExpirySeconds(provider.accessExpMs, issuedAt)), provider.key);
    assert token == provider.codec.compact(j);
    AccessTokenHeaderRead(req, token);
    IssuedAccessTokenResolves(ExtractCredentials(req).value, users, provider, u, issuedAt, now);
  }

  /** A refresh token is never accepted as an access token: without an API
      key it is refused, and with a known key it is replaced by a new access
      token for the key's owner. */
  lemma RefreshTokenIsNoAccessToken(c: Credentials, users: UserTable, provider: JwtTokenProvider,
                                    id: int, issuedAt: int, now: int)
    requires Faithful(provider.codec)
    requires c.accessToken == provider.GenerateRefreshToken(Some(id), issuedAt).value
    ensures !c.HasApiKey() ==> Resolve(c, users, provider, now) == Rejected(INVALID_ACCESS_TOKEN)
    ensures c.HasApiKey() && FindByApiKey(users, c.apiKey).Some? ==>
      var u := FindByApiKey(users, c.apiKey).value;
      Resolve(c, users, provider, now) == Authenticated(u, Some(GenAccessToken(provider, u, now)))
  {
    RefreshTokenHasNoPayload(provider, id, issuedAt, now);
    assert !IsBlank(c.accessToken);
  }

  /** The token put in the response after an API-key login is itself an
      access token for the same user until it expires. */
  lemma ReissuedTokenAuthenticates(c: Credentials, users: UserTable, provider: JwtTokenProvider, now: int, later: int)
    requires Faithful(provider.codec)
    requires forall k :: 0 <= k < |users| ==> InLongRange(users[k].id)
    requires Resolve(c, users, provider, now).Authenticated?
    requires Resolve(c, users, provider, now).reissued.Some?
    requires later <= provider.ExpirySeconds(provider.accessExpMs, now) * 1000
    ensures var o := Resolve(c, users, provider, now);
      TokenUser(o.reissued.value, users, provider, later) == FindById(users, o.user.id)
  {
    var o := Resolve(c, users, provider, now);
    var u := o.user;
    assert u in users;
    AccessTokenRoundTrip(provider, u.id, u.email, u.userName, now, later);
  }
}
