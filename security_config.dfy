/** The security chain: the authentication filter runs first, then the
    first-match route rules decide whether the route needs a signed-in user;
    an anonymous request to such a route gets the entry point's 401, and the
    access-denied handler's 403 is never reached because every signed-in
    user satisfies `authenticated()`. */
module SecurityConfig {
  import opened Wrappers
  import opened Text
  import opened ErrorCodes
  import opened Http
  import opened Users
  import opened Jwt
  import opened RequestContext
  import opened AuthenticationFilter

  /** Ant-style patterns as the rules use them: a literal path, or a root with a `**` suffix
      which matches `root` itself and everything below it. */
  datatype Pattern = Exact(path: string) | Subtree(root: string)

  predicate PatternMatches(pattern: Pattern, path: string) {
    match pattern
    case Exact(p) => path == p
    case Subtree(root) => path == root || StartsWith(path, root + "/")
  }

  datatype Access = PermitAll | RequireAuthenticated

  /** A rule; `verb == None` matches every method. The methods compare as
      written: the rules know no lower-case `get`. */
  datatype Rule = Rule(verb: Option<string>, patterns: seq<Pattern>, access: Access)

  predicate RuleMatches(rule: Rule, verb: string, path: string) {
    && (rule.verb.None? || rule.verb.value == verb)
    && exists k :: 0 <= k < |rule.patterns| && PatternMatches(rule.patterns[k], path)
  }

  const RULES: seq<Rule> := [
    Rule(Some("OPTIONS"), [Subtree("")], PermitAll),
    Rule(None, [Exact("/api/user/join"), Exact("/api/user/login"), Exact("/api/user/reissue")], PermitAll),
    Rule(Some("GET"), [Subtree("/api/pins")], PermitAll),
    Rule(Some("GET"), [Subtree("/api/tags")], PermitAll),
    Rule(None, [Subtree("/api")], RequireAuthenticated),
    Rule(None, [Subtree("/swagger-ui"), Exact("/swagger-ui.html"), Subtree("/v3/api-docs"),
                Subtree("/swagger-resources"), Subtree("/webjars")], PermitAll)
  ]

  /** The access of the first rule that matches, `anyRequest().permitAll()`
      when none does. */
  function AuthorizeFrom(rules: seq<Rule>, verb: string, path: string): Access {
    if rules == [] then PermitAll
    else if RuleMatches(rules[0], verb, path) then rules[0].access
    else AuthorizeFrom(rules[1..], verb, path)
  }

  function Authorize(verb: string, path: string): Access {
    AuthorizeFrom(RULES, verb, path)
  }

  predicate UnderApi(path: string) {
    path == "/api" || StartsWith(path, "/api/")
  }

  predicate Under(path: string, root: string) {
    path == root || StartsWith(path, root + "/")
  }

  /** The first-match walk over the six rules, written out. */
  lemma AuthorizeUnfold(verb: string, path: string)
    ensures Authorize(verb, path) ==
      if RuleMatches(RULES[0], verb, path) || RuleMatches(RULES[1], verb, path)
         || RuleMatches(RULES[2], verb, path) || RuleMatches(RULES[3], verb, path) then PermitAll
      else if RuleMatches(RULES[4], verb, path) then RequireAuthenticated
      else PermitAll
  {
    var rules := RULES;
    assert rules[5..][1..] == [];
    assert rules[4..][1..] == rules[5..] && rules[4..][0] == rules[4];
    assert rules[3..][1..] == rules[4..] && rules[3..][0] == rules[3];
    assert rules[2..][1..] == rules[3..] && rules[2..][0] == rules[2];
    assert rules[1..][1..] == rules[2..] && rules[1..][0] == rules[1];
    assert rules[0..] == rules;
    AuthorizeStep(rules[5..], verb, path);
    AuthorizeStep(rules[4..], verb, path);
    AuthorizeStep(rules[3..], verb, path);
    AuthorizeStep(rules[2..], verb, path);
    AuthorizeStep(rules[1..], verb, path);
    AuthorizeStep(rules, verb, path);
  }

  lemma AuthorizeStep(rules: seq<Rule>, verb: string, path: string)
    requires rules != []
    ensures AuthorizeFrom(rules, verb, path) ==
      if RuleMatches(rules[0], verb, path) then rules[0].access else AuthorizeFrom(rules[1..], verb, path)
  {
  }

  lemma SinglePatternRule(rule: Rule, verb: string, path: string)
    requires |rule.patterns| == 1
    ensures RuleMatches(rule, verb, path) <==>
      (rule.verb.None? || rule.verb.value == verb) && PatternMatches(rule.patterns[0], path)
  {
    if (rule.verb.None? || rule.verb.value == verb) && PatternMatches(rule.patterns[0], path) {
      assert PatternMatches(rule.patterns[0], path);
    }
  }

  /** The rules as one condition: a route needs a signed-in user exactly when
      it is `/api` or below, is not a preflight, not one of the three open
      user paths, and not a GET of pins or tags. */
  lemma AuthorizeCharacterization(verb: string, path: string)
    ensures Authorize(verb, path) == RequireAuthenticated <==>
      && verb != "OPTIONS"
      && UnderApi(path)
      && path !in PERMIT_PATHS
      && !(verb == "GET" && (Under(path, "/api/pins") || Under(path, "/api/tags")))
  {
    AuthorizeUnfold(verb, path);
    SinglePatternRule(RULES[0], verb, path);
    SinglePatternRule(RULES[2], verb, path);
    SinglePatternRule(RULES[3], verb, path);
    SinglePatternRule(RULES[4], verb, path);
    assert RuleMatches(RULES[4], verb, path) <==> UnderApi(path);
    if UnderApi(path) {
      assert path == "/api" || path[..5] == "/api/";
      assert path[..1] == "/";
      assert PatternMatches(RULES[0].patterns[0], path);
    }
    assert RuleMatches(RULES[1], verb, path) <==> path in PERMIT_PATHS by {
      if path in PERMIT_PATHS {
        assert PatternMatches(RULES[1].patterns[0], path) || PatternMatches(RULES[1].patterns[1], path)
            || PatternMatches(RULES[1].patterns[2], path);
      }
    }
  }

  // ---- the two handlers ----

  /** The handlers' JSON: pretty-printed over five lines, with `data: null`. */
  function HandlerBody(code: ErrorCode): string {
    "{\n  \"errorCode\": \"" + LongToDecimal(Code(code)) + "\",\n  \"msg\": \"" + Message(code)
      + "\",\n  \"data\": null\n}\n"
  }

  function Handled(s: ResponseState, code: ErrorCode): ResponseState {
    s.(status := Status(code).Value(), contentType := JSON_UTF8, body := s.body + HandlerBody(code))
  }

  /** `handleAuthEntryPoint`: 401 AUTH_REQUIRED. */
  method HandleAuthEntryPoint(res: Response)
    modifies res
    ensures Snapshot(res) == Handled(old(Snapshot(res)), AUTH_REQUIRED)
    ensures res.status == 401
  {
    var code := AUTH_REQUIRED;
    res.SetStatus(Status(code).Value());
    res.SetContentType(JSON_UTF8);
    res.Write(HandlerBody(code));
  }

  /** `handleAccessDenied`: 403 ACCESS_DENIED. */
  method HandleAccessDenied(res: Response)
    modifies res
    ensures Snapshot(res) == Handled(old(Snapshot(res)), ACCESS_DENIED)
    ensures res.status == 403
  {
    var code := ACCESS_DENIED;
    res.SetStatus(Status(code).Value());
    res.SetContentType(JSON_UTF8);
    res.Write(HandlerBody(code));
  }

  // ---- the whole chain ----

  datatype Verdict =
    | Served(actor: Option<User>)            // the controller runs with this actor
    | Refused(status: int, body: string)     // answered by the chain itself

  /** One request through the filter and the authorization rules. */
  function Serve(req: Request, users: UserTable, provider: JwtTokenProvider, now: int): (v: Verdict)
    ensures v.Refused? ==> v.status == 401
  {
    assert Status(INVALID_ACCESS_TOKEN).Value() == Status(INVALID_API_KEY).Value() == Status(AUTH_REQUIRED).Value() == 401;
    var o := Decide(req, users, provider, now);
    if o.Rejected? then Refused(Status(o.code).Value(), Body401(o.code))
    else
      var actor := if o.Authenticated? then Some(o.user) else None;
      if Authorize(req.httpMethod, req.uri) == RequireAuthenticated && actor.None?
      then Refused(Status(AUTH_REQUIRED).Value(), HandlerBody(AUTH_REQUIRED))
      else Served(actor)
  }

  /** A route that needs a user is only ever served with one. */
  lemma GuardedRoutesHaveActor(req: Request, users: UserTable, provider: JwtTokenProvider, now: int)
    requires Authorize(req.httpMethod, req.uri) == RequireAuthenticated
    ensures Serve(req, users, provider, now).Served? ==> Serve(req, users, provider, now).actor.Some?
  {
  }

  /** Pin reads run without an actor even when the request carries a valid
      token: the filter lets them through before reading any credential, so
      a private pin is never shown to its owner on these routes. */
  lemma PinReadsHaveNoActor(req: Request, users: UserTable, provider: JwtTokenProvider, now: int)
    requires req.httpMethod == "GET" && Under(req.uri, "/api/pins")
    ensures Serve(req, users, provider, now) == Served(None)
  {
    assert IsPinsRead(req);
    AuthorizeCharacterization(req.httpMethod, req.uri);
  }

  /** Tag reads are open in the rules but not skipped by the filter, so a
      malformed `Authorization` header makes them fail with the filter's own
      401. */
  lemma TagReadWithMalformedHeaderRefused(req: Request, users: UserTable, provider: JwtTokenProvider, now: int)
    requires req.httpMethod == "GET" && req.uri == "/api/tags"
    requires var h := AuthenticationFilter.Header(req, "Authorization"); !IsBlank(h) && !StartsWith(h, "Bearer ")
    ensures Serve(req, users, provider, now) == Refused(401, Body401(INVALID_ACCESS_TOKEN))
  {
    assert !IsPinsRead(req) by {
      assert req.uri[5] != "/api/pins"[5];
      assert req.uri != "/api/pins";
      assert !StartsWith(req.uri, "/api/pins/");
    }
    assert StartsWith(req.uri, "/api/");
    assert !EqualsIgnoreCase(req.httpMethod, "OPTIONS") by {
      assert |req.httpMethod| != |"OPTIONS"|;
    }
    assert !Bypasses(req);
  }

  /** Creating a pin without any credential is answered by the entry point. */
  lemma AnonymousPinCreationRefused(req: Request, users: UserTable, provider: JwtTokenProvider, now: int)
    requires req.httpMethod == "POST" && req.uri == "/api/pins"
    requires req.headers == [] && req.cookies == []
    ensures Serve(req, users, provider, now) == Refused(401, HandlerBody(AUTH_REQUIRED))
  {
    assert !EqualsIgnoreCase(req.httpMethod, "OPTIONS") by {
      assert |req.httpMethod| != |"OPTIONS"|;
    }
    assert !EqualsIgnoreCase(req.httpMethod, "GET") by {
      assert |req.httpMethod| != |"GET"|;
    }
    assert StartsWith(req.uri, "/api/");
    assert BearerWords(req) == Some([]);
    FirstNonBlank4("", "", "", "");
    FirstNonBlank3("", "", "");
    AuthorizeCharacterization(req.httpMethod, req.uri);
  }

  /** The filter compares the method ignoring case, the rules do not: an
      anonymous lower-case `get` of the pins passes the filter untouched and
      is then refused by the rules. */
  lemma LowerCaseGetOfPinsRefused(req: Request, users: UserTable, provider: JwtTokenProvider, now: int)
    requires req.httpMethod == "get" && req.uri == "/api/pins"
    ensures Serve(req, users, provider, now) == Refused(401, HandlerBody(AUTH_REQUIRED))
  {
    assert EqualsIgnoreCase(req.httpMethod, "GET");
    assert IsPinsRead(req);
    AuthorizeCharacterization(req.httpMethod, req.uri);
  }
}
