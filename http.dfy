/** The parts of the servlet request and response the authenticator and the
    security configuration touch. */
module Http {
  import opened Wrappers
  import opened Text
  import opened Tables

  datatype Header = Header(name: string, value: string)

  /** A cookie as the client sent it. */
  datatype Cookie = Cookie(name: string, value: string)

  datatype Request = Request(
    httpMethod: string,
    uri: string,
    headers: seq<Header>,
    cookies: seq<Cookie>,   // empty when the request carries none
    secure: bool)

  /** `getHeader`: the first header whose name matches without regard to case. */
  function HeaderValue(headers: seq<Header>, name: string): (r: Option<string>)
    ensures r.Some? ==> exists k :: 0 <= k < |headers| && AsciiEqualsIgnoreCase(headers[k].name, name) && headers[k].value == r.value
    ensures r.None? ==> forall k :: 0 <= k < |headers| ==> !AsciiEqualsIgnoreCase(headers[k].name, name)
  {
    match FirstMatch(headers, (h: Header) => AsciiEqualsIgnoreCase(h.name, name))
    case None => None
    case Some(h) => Some(h.value)
  }

  /** Headers not of that name, compared without regard to case. */
  function OtherName(name: string): Header -> bool {
    (h: Header) => !AsciiEqualsIgnoreCase(h.name, name)
  }

  /** A cookie as the server sets it. */
  datatype SetCookie = SetCookie(
    name: string,
    value: string,
    path: string,
    httpOnly: bool,
    secure: bool,
    sameSite: string,
    maxAge: Option<int>)

  class Response {
    var status: int
    var contentType: string
    var body: string
    var headers: seq<Header>
    var cookies: seq<SetCookie>
    var committed: bool

    constructor ()
      ensures status == 200 && contentType == "" && body == "" && headers == [] && cookies == [] && !committed
    {
      status := 200;
      contentType := "";
      body := "";
      headers := [];
      cookies := [];
      committed := false;
    }

    /** `setHeader`: replaces every header of that name. */
    method SetHeader(name: string, value: string)
      modifies this`headers
      ensures headers == Filter(old(headers), OtherName(name)) + [Header(name, value)]
      ensures HeaderValue(headers, name) == Some(value)
    {
      var kept := Filter(headers, OtherName(name));
      headers := kept + [Header(name, value)];
      assert headers[|kept|] == Header(name, value);
      assert AsciiEqualsIgnoreCase(name, name);
    }

    method AddCookie(c: SetCookie)
      modifies this`cookies
      ensures cookies == old(cookies) + [c]
    {
      cookies := cookies + [c];
    }

    method SetStatus(s: int)
      modifies this`status
      ensures status == s
    {
      status := s;
    }

    method SetContentType(t: string)
      modifies this`contentType
      ensures contentType == t
    {
      contentType := t;
    }

    /** `getWriter().write`. */
    method Write(s: string)
      modifies this`body
      ensures body == old(body) + s
    {
      body := body + s;
    }

    /** `getWriter().flush()`: the response is committed. */
    method Flush()
      modifies this`committed
      ensures committed
    {
      committed := true;
    }
  }
}
