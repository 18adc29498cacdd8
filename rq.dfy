/** The request-scoped helper every controller and the authenticator use to
    read headers and cookies, set response cookies and headers, and find the
    current actor. */
module RequestContext {
  import opened Wrappers
  import opened Text
  import opened Tables
  import opened Http
  import opened Users

  /** The principal of the current authentication: a user, or anything else
      (an anonymous-user marker, say). */
  datatype Principal = UserPrincipal(user: User) | OtherPrincipal(name: string)

  datatype Authentication = Authentication(principal: Principal, authorities: seq<string>)

  /** A cookie `getCookieValue` may return. */
  predicate Usable(c: Cookie, name: string) {
    c.name == name && !IsBlank(c.value)
  }

  /** The cookie `setCookie(name, value)` adds: path `/`, HttpOnly, SameSite
      Lax, Secure exactly on a secure request, the value or "" for null, and
      for a null or blank value an immediate expiry. */
  function SessionCookie(name: string, value: Option<string>, secure: bool): (c: SetCookie)
    ensures c.name == name && c.path == "/" && c.httpOnly && c.sameSite == "Lax" && c.secure == secure
    ensures c.value == value.GetOr("")
    ensures c.maxAge == (if value.None? || IsBlank(value.value) then Some(0) else None)
  {
    var v := value.GetOr("");
    SetCookie(name, v, "/", true, secure, "Lax", if IsBlank(v) then Some(0) else None)
  }

  class Rq {
    const request: Request
    const response: Response

    constructor (request: Request, response: Response)
      ensures this.request == request && this.response == response
    {
      this.request := request;
      this.response := response;
    }

    /** `actor`: the principal of the current authentication when it is a user. */
    static function Actor(authentication: Option<Authentication>): (r: Option<User>)
      ensures r.Some? <==> authentication.Some? && authentication.value.principal.UserPrincipal?
      ensures r.Some? ==> authentication.value.principal == UserPrincipal(r.value)
    {
      match authentication
      case Some(Authentication(UserPrincipal(u), _)) => Some(u)
      case _ => None
    }

    /** `getHeader`: the header's value when the request has one, else the default. */
    function GetHeader(name: string, defaultValue: string): (r: string)
      ensures HeaderValue(request.headers, name).Some? ==> r == HeaderValue(request.headers, name).value
      ensures HeaderValue(request.headers, name).None? ==> r == defaultValue
    {
      HeaderValue(request.headers, name).GetOr(defaultValue)
    }

    /** `getCookieValue`. */
    function GetCookieValue(name: string, defaultValue: string): (r: string)
      ensures r == defaultValue || (!IsBlank(r) && exists k :: 0 <= k < |request.cookies| && request.cookies[k] == Cookie(name, r))
      ensures (exists k :: 0 <= k < |request.cookies| && Usable(request.cookies[k], name)) ==> !IsBlank(r)
    {
      CookieValue(request.cookies, name, defaultValue)
    }

    static function CookieValue(cookies: seq<Cookie>, name: string, defaultValue: string): (r: string)
      ensures r == defaultValue || (!IsBlank(r) && exists k :: 0 <= k < |cookies| && cookies[k] == Cookie(name, r))
      ensures (exists k :: 0 <= k < |cookies| && Usable(cookies[k], name)) ==> !IsBlank(r)
    {
      match FirstMatch(cookies, (c: Cookie) => Usable(c, name))
      case None => defaultValue
      case Some(c) => c.value
    }

    /** `setHeader`. */
    method SetHeader(name: string, value: string)
      modifies response`headers
      ensures response.headers == Filter(old(response.headers), OtherName(name)) + [Header(name, value)]
    {
      response.SetHeader(name, value);
    }

    /** `setCookie`. */
    method SetCookie(name: string, value: Option<string>)
      modifies response`cookies
      ensures response.cookies == old(response.cookies) + [SessionCookie(name, value, request.secure)]
    {
      response.AddCookie(SessionCookie(name, value, request.secure));
    }

    /** `deleteCookie`: `setCookie` with a null value. */
    method DeleteCookie(name: string)
      modifies response`cookies
      ensures response.cookies == old(response.cookies) + [SessionCookie(name, None, request.secure)]
      ensures response.cookies[|response.cookies| - 1].maxAge == Some(0)
      ensures response.cookies[|response.cookies| - 1].value == ""
    {
      SetCookie(name, None);
    }
  }

  /** A blank-valued cookie is passed over as if it were absent. */
  lemma CookieSkipsBlank(c: Cookie, rest: seq<Cookie>, name: string, defaultValue: string)
    requires IsBlank(c.value) || c.name != name
    ensures Rq.CookieValue([c] + rest, name, defaultValue) == Rq.CookieValue(rest, name, defaultValue)
  {
    assert ([c] + rest)[1..] == rest;
  }

  /** The first usable cookie of that name wins over any later namesake. */
  lemma CookieFirstWins(c: Cookie, rest: seq<Cookie>, name: string, defaultValue: string)
    requires Usable(c, name)
    ensures Rq.CookieValue([c] + rest, name, defaultValue) == c.value
  {
  }
}
