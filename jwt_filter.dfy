/** JwtAuthenticationFilter: a bearer token taken from the Authorization header (the scheme
    of section 2.1 of RFC 6750, matched case-sensitively) and, when JwtUtil accepts it, an
    authentication carrying the token's member id put into the security context. */
module JwtFilter {
  import opened Wrappers
  import opened Text
  import opened Errors
  import opened Members
  import opened Auth
  import opened CurrentUser

  const BearerPrefix: string := "Bearer "

  /** extractTokenFromHeader(request): a header that starts with "Bearer " gives the rest
      of it, possibly empty; a missing header or any other value gives no token. */
  function ExtractToken(header: Option<string>): (r: Option<string>)
    ensures r.Some? <==> header.Some? && StartsWith(header.value, BearerPrefix)
    ensures r.Some? ==> header.value == BearerPrefix + r.value
  {
    if header.Some? && StartsWith(header.value, BearerPrefix) then
      assert header.value == header.value[..7] + header.value[7..];
      Some(header.value[7..])
    else None
  }

  /** Every token travels in a header built from it, and the prefix is matched exactly:
      the lower-case scheme and a scheme without the space carry no token. */
  lemma ExtractTokenRoundTrip(token: string)
    ensures ExtractToken(Some(BearerPrefix + token)) == Some(token)
    ensures ExtractToken(Some("bearer " + token)) == None
    ensures ExtractToken(Some("Bearer")) == None
    ensures ExtractToken(None) == None
  {
    assert (BearerPrefix + token)[..7] == BearerPrefix;
    assert ("bearer " + token)[0] == 'b';
  }

  /** The authentication the filter builds for an accepted token: the memberId claim as a
      Long principal, or a null principal when the claim is absent. */
  function TokenAuthentication(jwt: JwtUtil, token: string): Authentication {
    match jwt.memberIdOf(token)
    case Some(id) => Authentication(Some(LongPrincipal(id)))
    case None => Authentication(None)
  }

  /** The security context's authentication after the filter: replaced exactly when the
      header carries a token JwtUtil validates, kept otherwise. */
  function AfterFilter(previous: Option<Authentication>, jwt: JwtUtil, header: Option<string>): (r: Option<Authentication>)
    ensures ExtractToken(header).None? ==> r == previous
    ensures ExtractToken(header).Some? && !jwt.validateToken(ExtractToken(header).value) ==> r == previous
    ensures r != previous ==> ExtractToken(header).Some? && jwt.validateToken(ExtractToken(header).value)
                              && r == Some(TokenAuthentication(jwt, ExtractToken(header).value))
  {
    match ExtractToken(header)
    case None => previous
    case Some(token) => if jwt.validateToken(token) then Some(TokenAuthentication(jwt, token)) else previous
  }

  /** SecurityContextHolder's context for the current request. */
  class SecurityContext {
    var authentication: Option<Authentication>

    constructor ()
      ensures authentication.None?
    {
      authentication := None;
    }
  }

  /** The rest of the filter chain, recording how often it was entered. */
  class FilterChain {
    var invocations: nat

    constructor ()
      ensures invocations == 0
    {
      invocations := 0;
    }

    /** filterChain.doFilter(request, response). */
    method DoFilter()
      modifies this
      ensures invocations == old(invocations) + 1
    {
      invocations := invocations + 1;
    }
  }

  /** doFilterInternal(request, response, filterChain) for a request with the given
      Authorization header: the context is updated as AfterFilter says, and the chain is
      entered exactly once whatever the header held. */
  method DoFilterInternal(context: SecurityContext, chain: FilterChain, jwt: JwtUtil, header: Option<string>)
    modifies context, chain
    ensures context.authentication == AfterFilter(old(context.authentication), jwt, header)
    ensures chain.invocations == old(chain.invocations) + 1
  {
    var token := ExtractToken(header);
    if token.Some? {
      var isValid := jwt.validateToken(token.value);
      if isValid {
        context.authentication := Some(TokenAuthentication(jwt, token.value));
      }
    }
    chain.DoFilter();
  }

  /** End to end, for a request that starts with an empty context: a bearer token JwtUtil
      accepts, whose memberId names a member, resolves to that member; a request without a
      usable token, or an accepted token without a memberId claim, makes the resolver fail
      with JWT_INVALID_TOKEN. */
  lemma FilterThenResolve(rows: seq<Member>, jwt: JwtUtil, token: string, header: Option<string>)
    requires IdsAscend(rows)
    ensures jwt.validateToken(token) && jwt.memberIdOf(token).Some? ==>
      (ResolveArgument(rows, AfterFilter(None, jwt, Some(BearerPrefix + token))).Ok? <==>
        exists k | 0 <= k < |rows| :: rows[k].id == jwt.memberIdOf(token).value)
    ensures jwt.validateToken(token) && jwt.memberIdOf(token).None? ==>
      ResolveArgument(rows, AfterFilter(None, jwt, Some(BearerPrefix + token))) == Err(GeneralErr(JwtInvalidToken))
    ensures jwt.validateToken(token) && jwt.memberIdOf(token).Some? ==>
      forall k | 0 <= k < |rows| && rows[k].id == jwt.memberIdOf(token).value ::
        ResolveArgument(rows, AfterFilter(None, jwt, Some(BearerPrefix + token))) == Ok(rows[k])
    ensures ExtractToken(header).None? || !jwt.validateToken(ExtractToken(header).value) ==>
      ResolveArgument(rows, AfterFilter(None, jwt, header)) == Err(GeneralErr(JwtInvalidToken))
  {
    ExtractTokenRoundTrip(token);
    if jwt.validateToken(token) && jwt.memberIdOf(token).Some? {
      forall k | 0 <= k < |rows| && rows[k].id == jwt.memberIdOf(token).value
        ensures ResolveArgument(rows, AfterFilter(None, jwt, Some(BearerPrefix + token))) == Ok(rows[k])
      {
        ResolvesOwnMember(rows, k);
      }
    }
  }
}
