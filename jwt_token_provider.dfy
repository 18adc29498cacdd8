/** The token codec. A token is treated as an opaque string that a `Codec`
    produces from, and parses back into, its signed content (a JWS in the
    sense of RFC 7519, signed with HMAC-SHA-256 as in section 3.2 of RFC
    7518); the signature itself is abstracted to the key it was made with. */
module Jwt {
  import opened Wrappers
  import opened JavaNumbers
  import opened Text

  type Bytes = seq<bv8>

  datatype ClaimValue = Num(n: int) | Str(s: string)

  type Claims = map<string, ClaimValue>

  /** What a parser reads back from a token: the custom claims, the subject,
      the issue and expiry times as whole seconds (the JWT numeric-date form),
      and the key the signature was made with. */
  datatype Jws = Jws(
    claims: Claims,
    subject: Option<string>,
    issuedAt: int,
    expiration: Option<int>,
    signedWith: Bytes)

  /** Compact serialisation and parsing. Nothing is known of them beyond
      what `Faithful` states. */
  datatype Codec = Codec(compact: Jws -> string, parse: string -> Option<Jws>)

  /** A codec that reads back exactly what it wrote and never writes a blank token. */
  ghost predicate Faithful(c: Codec) {
    forall j :: c.parse(c.compact(j)) == Some(j) && !IsBlank(c.compact(j))
  }

  /** `toString()` of a claim value, as the subject is derived from `id`. */
  function ClaimText(v: ClaimValue): string {
    match v
    case Num(n) => LongToDecimal(n)
    case Str(s) => s
  }

  const ROLE_USER: string := "ROLE_USER"

  function AccessClaims(id: int, email: string, userName: string): Claims {
    map["id" := Num(id), "email" := Str(email), "userName" := Str(userName), "role" := Str(ROLE_USER)]
  }

  function RefreshClaims(id: int): Claims {
    map["id" := Num(id)]
  }

  /** What `payloadOrNull` hands back. */
  datatype Payload = Payload(id: int, email: string, userName: string, role: ClaimValue)

  /** The configured provider: the signing key and the two lifetimes in milliseconds. */
  datatype JwtTokenProvider = JwtTokenProvider(key: Bytes, accessExpMs: int, refreshExpMs: int, codec: Codec)
  {
    /** The constructor. `Keys.hmacShaKeyFor` refuses a secret shorter than
        256 bits; each lifetime is the configured seconds times 1000 in
        `Long` arithmetic. */
    static function Create(secret: Bytes, accessExpireSeconds: int, refreshExpireSeconds: int, codec: Codec)
      : (r: Option<JwtTokenProvider>)
      ensures r.Some? <==> |secret| >= 32
      ensures r.Some? ==> r.value.key == secret && r.value.codec == codec
      ensures r.Some? ==> InLongRange(r.value.accessExpMs) && InLongRange(r.value.refreshExpMs)
      ensures r.Some? && InLongRange(accessExpireSeconds * 1000) ==> r.value.accessExpMs == accessExpireSeconds * 1000
      ensures r.Some? && InLongRange(refreshExpireSeconds * 1000) ==> r.value.refreshExpMs == refreshExpireSeconds * 1000
    {
      if |secret| < 32 then None
      else Some(JwtTokenProvider(secret, WrapLong(accessExpireSeconds * 1000), WrapLong(refreshExpireSeconds * 1000), codec))
    }

    /** The expiry instant, in seconds, of a token built at `now` (ms) to live `expMs`. */
    function ExpirySeconds(expMs: int, now: int): int {
      MillisToSeconds(WrapLong(now + expMs))
    }

    /** `build`: the claims, the subject taken from `id`, issue time `now` and
        expiry `now + expMs`, both kept as whole seconds, signed with the key. */
    function Build(expMs: int, claims: Claims, now: int): (token: string)
      requires "id" in claims
    {
      codec.compact(Jws(claims, Some(ClaimText(claims["id"])), MillisToSeconds(now), Some(ExpirySeconds(expMs, now)), key))
    }

    /** `generateAccessToken`; `Map.of` throws on a null argument, which is `None` here. */
    function GenerateAccessToken(id: Option<int>, email: Option<string>, userName: Option<string>, now: int)
      : (token: Option<string>)
      ensures token.Some? <==> id.Some? && email.Some? && userName.Some?
    {
      if id.None? || email.None? || userName.None? then None
      else Some(Build(accessExpMs, AccessClaims(id.value, email.value, userName.value), now))
    }

    /** `generateRefreshToken`. */
    function GenerateRefreshToken(id: Option<int>, now: int): (token: Option<string>)
      ensures token.Some? <==> id.Some?
    {
      if id.None? then None else Some(Build(refreshExpMs, RefreshClaims(id.value), now))
    }

    /** `parser().parseClaimsJws(token)` at time `now`: a blank token, one the
        codec cannot read, one signed with another key and one whose expiry
        has passed all fail (with an exception, `None` here). */
    function Parse(token: string, now: int): (r: Option<Jws>)
      ensures r.Some? ==> !IsJavaBlank(token) && codec.parse(token) == r
      ensures r.Some? ==> r.value.signedWith == key
      ensures r.Some? && r.value.expiration.Some? ==> now <= r.value.expiration.value * 1000
    {
      if IsJavaBlank(token) then None
      else match codec.parse(token)
        case None => None
        case Some(j) =>
          if j.signedWith == key && (j.expiration.None? || now <= j.expiration.value * 1000) then Some(j)
          else None
    }

    /** `isValid`: parsing succeeds. */
    predicate IsValid(token: string, now: int) {
      Parse(token, now).Some?
    }

    /** `getUserId`: the subject read as a `Long`; `None` where the source throws. */
    function GetUserId(token: string, now: int): (r: Option<int>)
      ensures r.Some? ==> IsValid(token, now) && InLongRange(r.value)
    {
      match Parse(token, now)
      case None => None
      case Some(j) => if j.subject.None? then None else ParseLong(j.subject.value)
    }

    /** `payloadOrNull`: the subject as a `Long`, the `email` and `userName`
        claims, which must be strings, and `role`, defaulting to `ROLE_USER`;
        `None` on any failure. */
    function PayloadOrNull(token: string, now: int): (r: Option<Payload>)
      ensures r.Some? ==> IsValid(token, now) && Some(r.value.id) == GetUserId(token, now)
      ensures r.Some? ==> var c := Parse(token, now).value.claims;
        && "email" in c && c["email"] == Str(r.value.email)
        && "userName" in c && c["userName"] == Str(r.value.userName)
    {
      match Parse(token, now)
      case None => None
      case Some(j) =>
        if j.subject.None? then None
        else match ParseLong(j.subject.value)
          case None => None
          case Some(id) =>
            var c := j.claims;
            if "email" in c && c["email"].Str? && "userName" in c && c["userName"].Str? then
              Some(Payload(id, c["email"].s, c["userName"].s, if "role" in c then c["role"] else Str(ROLE_USER)))
            else None
    }

    /** `getRemainingValidityMillis`: zero for a token that does not parse or
        has no expiry, otherwise the time left until the expiry, or zero once
        it has passed. */
    function GetRemainingValidityMillis(token: string, now: int): (r: nat)
      ensures r > 0 ==> IsValid(token, now)
      ensures r > 0 ==> var j := Parse(token, now).value;
        j.expiration.Some? && now + r == j.expiration.value * 1000
    {
      match Parse(token, now)
      case None => 0
      case Some(j) =>
        if j.expiration.None? || j.expiration.value * 1000 <= now then 0
        else j.expiration.value * 1000 - now
    }
  }

  /** The access token reads back as exactly the four claims `id`, `email`,
      `userName` and `role = ROLE_USER`, with `id` as the subject. */
  lemma AccessTokenContents(p: JwtTokenProvider, id: int, email: string, userName: string, now: int)
    requires Faithful(p.codec)
    ensures var token := p.GenerateAccessToken(Some(id), Some(email), Some(userName), now).value;
      && p.codec.parse(token) == Some(Jws(AccessClaims(id, email, userName), Some(LongToDecimal(id)),
                                         MillisToSeconds(now), Some(p.ExpirySeconds(p.accessExpMs, now)), p.key))
      && p.codec.parse(token).value.claims.Keys == {"id", "email", "userName", "role"}
      && p.codec.parse(token).value.claims["role"] == Str(ROLE_USER)
  {
    var j := Jws(AccessClaims(id, email, userName), Some(LongToDecimal(id)),
                 MillisToSeconds(now), Some(p.ExpirySeconds(p.accessExpMs, now)), p.key);
    assert p.GenerateAccessToken(Some(id), Some(email), Some(userName), now).value == p.codec.compact(j);
  }

  /** The refresh token carries `id` and nothing else. */
  lemma RefreshTokenContents(p: JwtTokenProvider, id: int, now: int)
    requires Faithful(p.codec)
    ensures var token := p.GenerateRefreshToken(Some(id), now).value;
      && p.codec.parse(token) == Some(Jws(RefreshClaims(id), Some(LongToDecimal(id)),
                                         MillisToSeconds(now), Some(p.ExpirySeconds(p.refreshExpMs, now)), p.key))
      && p.codec.parse(token).value.claims.Keys == {"id"}
  {
    var j := Jws(RefreshClaims(id), Some(LongToDecimal(id)),
                 MillisToSeconds(now), Some(p.ExpirySeconds(p.refreshExpMs, now)), p.key);
    assert p.GenerateRefreshToken(Some(id), now).value == p.codec.compact(j);
  }

  /** A freshly built token is valid at time `t` exactly until the end of
      the second its lifetime ends in: the expiry is kept in whole seconds,
      so validity ends up to a second before `now + expMs`, never after. */
  lemma BuiltTokenValidity(p: JwtTokenProvider, expMs: int, claims: Claims, now: int, t: int)
    requires Faithful(p.codec) && "id" in claims
    ensures p.IsValid(p.Build(expMs, claims, now), t) <==> t <= p.ExpirySeconds(expMs, now) * 1000
    ensures 0 <= now + expMs <= LONG_MAX ==>
      now + expMs - 1000 < p.ExpirySeconds(expMs, now) * 1000 <= now + expMs
  {
    var j := Jws(claims, Some(ClaimText(claims["id"])), MillisToSeconds(now), Some(p.ExpirySeconds(expMs, now)), p.key);
    assert p.codec.parse(p.codec.compact(j)) == Some(j);
  }

  /** Round trip: until it expires, an access token issued for a user in the
      `Long` range gives back that user's id, email and name, and role `ROLE_USER`. */
  lemma AccessTokenRoundTrip(p: JwtTokenProvider, id: int, email: string, userName: string, now: int, t: int)
    requires Faithful(p.codec) && InLongRange(id)
    requires t <= p.ExpirySeconds(p.accessExpMs, now) * 1000
    ensures var token := p.GenerateAccessToken(Some(id), Some(email), Some(userName), now).value;
      && p.PayloadOrNull(token, t) == Some(Payload(id, email, userName, Str(ROLE_USER)))
      && p.GetUserId(token, t) == Some(id)
  {
    var token := p.GenerateAccessToken(Some(id), Some(email), Some(userName), now).value;
    AccessTokenContents(p, id, email, userName, now);
    LongDecimalRoundTrip(id);
    assert !IsJavaBlank(token) by {
      JavaBlankIsBlank(token);
    }
  }

  /** A refresh token never yields a payload: it has no `email` claim. So it
      cannot stand in for an access token. */
  lemma RefreshTokenHasNoPayload(p: JwtTokenProvider, id: int, now: int, t: int)
    requires Faithful(p.codec)
    ensures p.PayloadOrNull(p.GenerateRefreshToken(Some(id), now).value, t).None?
  {
    RefreshTokenContents(p, id, now);
  }

  /** A token signed by a provider with another key is never valid here. */
  lemma ForeignKeyRejected(p: JwtTokenProvider, q: JwtTokenProvider, expMs: int, claims: Claims, now: int, t: int)
    requires Faithful(p.codec) && q.codec == p.codec && q.key != p.key && "id" in claims
    ensures !p.IsValid(q.Build(expMs, claims, now), t)
  {
    var j := Jws(claims, Some(ClaimText(claims["id"])), MillisToSeconds(now), Some(q.ExpirySeconds(expMs, now)), q.key);
    assert p.codec.parse(q.codec.compact(j)) == Some(j);
  }
}
