/**
 * JwtAuthenticationFilter: reads the bearer token of a request and, when no authentication is
 * present yet, installs one for a valid access token. The security context is passed in and
 * handed back explicitly, and the string-to-token decoder is a parameter (signature checking
 * is not modelled).
 */
module JwtFilter {
  import opened Wrappers
  import opened Errors
  import opened Strings
  import opened Jwt

  const BEARER: string := "Bearer "

  /** A `UsernamePasswordAuthenticationToken`: the principal's username and the authority names. */
  datatype Authentication = Authentication(principal: string, authorities: set<string>)

  /** The security context after the filter, and how often the rest of the chain was invoked. */
  datatype FilterOutcome = FilterOutcome(context: Option<Authentication>, chainCalls: nat)

  /** The token text of an `Authorization` header: everything after "Bearer ", trimmed. */
  function BearerToken(header: Option<string>): (r: Option<string>)
    ensures r.Some? <==> header.Some? && StartsWith(header.value, BEARER)
  {
    if header.Some? && StartsWith(header.value, BEARER) then Some(Trim(header.value[|BEARER|..]))
    else None
  }

  /** The header built from a token is parsed back to that token, trimmed. */
  lemma BearerRoundTrip(t: string)
    ensures BearerToken(Some(BEARER + t)) == Some(Trim(t))
  {
    assert (BEARER + t)[..|BEARER|] == BEARER;
    assert (BEARER + t)[|BEARER|..] == t;
  }

  /**
   * `doFilterInternal`. Without a bearer header the request passes untouched. Otherwise the
   * subject is read (a bad or expired token throws out of the filter); when it is non-null and
   * the context is empty, the roles are read (a token without the claim throws) and an
   * authentication with exactly those roles is installed if the token is a valid access token
   * for its own subject. Every path that returns continues the chain once.
   */
  function DoFilterInternal(header: Option<string>, context: Option<Authentication>,
                            decode: string -> Token, now: int): (r: Result<FilterOutcome, Fault>)
    ensures r.Success? ==> r.value.chainCalls == 1
    ensures BearerToken(header).None? ==> r == Success(FilterOutcome(context, 1))
    ensures r.Success? && r.value.context != context ==>
      && context.None?
      && var t := decode(BearerToken(header).value);
      && t.Signed? && t.claims.typ == Some(ACCESS) && Unexpired(t.claims, now)
      && t.claims.sub.Some? && t.claims.roles.Some?
      && r.value.context.Some?
      && r.value.context.value.principal == t.claims.sub.value
      && (forall a :: a in r.value.context.value.authorities <==> Some(a) in t.claims.roles.value)
    ensures r.Failure? <==>
      && BearerToken(header).Some?
      && var t := decode(BearerToken(header).value);
      || !(t.Signed? && Unexpired(t.claims, now))
      || (t.claims.sub.Some? && context.None? && t.claims.roles.None?)
  {
    match BearerToken(header)
    case None => Success(FilterOutcome(context, 1))
    case Some(jwt) =>
      var token := decode(jwt);
      match ExtractUsername(token, now)
      case Failure(e) => Failure(e)
      case Success(username) =>
        if username.Some? && context.None? then
          match ExtractRoles(token, now)
          case Failure(e) => Failure(e)
          case Success(roles) =>
            if IsAccessTokenValid(token, username.value, now) then
              Success(FilterOutcome(Some(Authentication(username.value, roles)), 1))
            else Success(FilterOutcome(context, 1))
        else Success(FilterOutcome(context, 1))
  }

  /**
   * On an empty context the filter authenticates exactly the unexpired ACCESS tokens with a
   * subject: the subject check compares the token with itself, so only type and expiry matter.
   */
  lemma AuthenticatesIff(header: Option<string>, decode: string -> Token, now: int)
    requires BearerToken(header).Some?
    ensures var t := decode(BearerToken(header).value);
      var r := DoFilterInternal(header, None, decode, now);
      (r.Success? && r.value.context.Some?) <==>
        t.Signed? && t.claims.typ == Some(ACCESS) && Unexpired(t.claims, now)
        && t.claims.sub.Some? && t.claims.roles.Some?
  {
    var t := decode(BearerToken(header).value);
    if t.Signed? && t.claims.sub.Some? {
      AccessValidIff(t, t.claims.sub.value, now);
    }
  }

  /** An existing authentication is never replaced; the request only passes or fails. */
  lemma KeepsExistingAuthentication(header: Option<string>, a: Authentication, decode: string -> Token, now: int)
    ensures var r := DoFilterInternal(header, Some(a), decode, now);
      r.Success? ==> r.value.context == Some(a)
  {
  }

  /**
   * A freshly minted access token sent as a bearer header authenticates its owner with exactly
   * the authorities it was minted with, for as long as it lives.
   */
  lemma MintedAccessTokenAuthenticates(t: string, decode: string -> Token, username: string,
                                       authorities: set<string>, ttl: int, iat: int, now: int)
    requires decode(Trim(t)) == Signed(MintedClaims(username, authorities, ACCESS, ttl, iat, ""))
    requires iat <= now <= iat + ttl
    ensures DoFilterInternal(Some(BEARER + t), None, decode, now)
            == Success(FilterOutcome(Some(Authentication(username, authorities)), 1))
  {
    BearerRoundTrip(t);
    MintedRoundTrip(username, authorities, ACCESS, ttl, iat, "", {}, now);
  }

  /** A refresh token sent as a bearer header on an unauthenticated request throws: it has no roles claim. */
  lemma RefreshTokenAsBearerFails(t: string, decode: string -> Token, username: string,
                                  ttl: int, iat: int, jti: Uuid, now: int)
    requires decode(Trim(t)) == Signed(MintedClaims(username, {}, REFRESH, ttl, iat, jti))
    requires iat <= now <= iat + ttl
    ensures DoFilterInternal(Some(BEARER + t), None, decode, now) == Failure(NullPointer)
  {
    BearerRoundTrip(t);
    MintedRefreshClaims(username, ttl, iat, jti, now);
    RolelessSubjectFails(Some(BEARER + t), decode, now);
  }

  /** The claims of a minted refresh token, as the filter reads them. */
  lemma MintedRefreshClaims(username: string, ttl: int, iat: int, jti: Uuid, now: int)
    requires iat <= now <= iat + ttl
    ensures var c := MintedClaims(username, {}, REFRESH, ttl, iat, jti);
      c.sub == Some(username) && c.roles.None? && Unexpired(c, now)
  {
  }

  /** A live token with a subject but no roles claim makes the filter throw on an empty context. */
  lemma RolelessSubjectFails(header: Option<string>, decode: string -> Token, now: int)
    requires BearerToken(header).Some?
    requires var tok := decode(BearerToken(header).value);
      tok.Signed? && Unexpired(tok.claims, now) && tok.claims.sub.Some? && tok.claims.roles.None?
    ensures DoFilterInternal(header, None, decode, now) == Failure(NullPointer)
  {
  }
}
