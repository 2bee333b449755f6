/**
 * JwtAuthenticationFilter (security/JwtAuthenticationFilter.java): reads the bearer token
 * of a request and, when no authentication is present yet and the token is valid for a
 * stored user, installs that user in the security context. The request is reduced to the
 * value of its Authorization header, absent when the header is missing.
 */
module AuthFilter {
  import opened Wrappers
  import opened Exceptions
  import opened Constants
  import opened Jwt
  import opened Users

  /** extractToken: the text after a case-sensitive "Bearer " prefix, or null. */
  function ExtractToken(header: Option<string>): (token: Option<string>)
    ensures token.Some? <==> header.Some? && AUTH_BEARER_PREFIX <= header.value
    ensures token.Some? ==> header.value == AUTH_BEARER_PREFIX + token.value
  {
    if header.Some? && AUTH_BEARER_PREFIX <= header.value then Some(header.value[|AUTH_BEARER_PREFIX|..])
    else None
  }

  /** The prefix is stripped exactly once: whatever follows it is the token, even another prefix. */
  lemma ExtractTokenOfBearer(token: string)
    ensures ExtractToken(Some(AUTH_BEARER_PREFIX + token)) == Some(token)
  {
    assert (AUTH_BEARER_PREFIX + token)[|AUTH_BEARER_PREFIX|..] == token;
  }

  /** UsernamePasswordAuthenticationToken(principal, credentials, authorities). */
  datatype Authentication = UsernamePasswordAuthenticationToken(principal: User, credentials: Option<string>, authorities: seq<GrantedAuthority>)

  /** The request's SecurityContext; `authentication` is null until someone sets it. */
  class SecurityContext {
    var authentication: Option<Authentication>

    constructor ()
      ensures authentication == None
    {
      authentication := None;
    }

    method SetAuthentication(a: Authentication)
      modifies this
      ensures authentication == Some(a)
    {
      authentication := Some(a);
    }
  }

  /** The rest of the filter chain; it records how many times the request was passed on. */
  class FilterChain {
    var invocations: nat

    constructor ()
      ensures invocations == 0
    {
      invocations := 0;
    }

    method DoFilter()
      modifies this
      ensures invocations == old(invocations) + 1
    {
      invocations := invocations + 1;
    }
  }

  /**
   * What doFilterInternal does to the context: the authentication it leaves there, or the
   * exception that escapes. The token is parsed whenever one is present, even when the
   * context is already authenticated.
   */
  function Authenticate(jwtUtil: JwtUtil, userDetailsService: UserRepository, header: Option<string>,
                        current: Option<Authentication>, nowMs: int): (r: Outcome<Option<Authentication>>)
    reads userDetailsService
    requires userDetailsService.Valid()
    ensures ExtractToken(header).None? ==> r == Returned(current)
    ensures current.Some? && r.Returned? ==> r.value == current
    ensures r.Thrown? <==>
              && ExtractToken(header).Some?
              && var claims := jwtUtil.ExtractAllClaims(ExtractToken(header).value, nowMs);
                 claims.None? || (current.None? && claims.value.subject !in userDetailsService.users)
    ensures r.Returned? && r.value != current ==>
              && current.None? && r.value.Some?
              && var token := ExtractToken(header).value;
                 var user := r.value.value.principal;
                 && jwtUtil.ExtractUsername(token, nowMs) == Some(user.username)
                 && user.username in userDetailsService.users && user == userDetailsService.users[user.username]
                 && jwtUtil.IsTokenValid(token, user.username, nowMs) == Some(true)
                 && r.value.value == UsernamePasswordAuthenticationToken(user, None, user.GetAuthorities())
  {
    match ExtractToken(header)
    case None => Returned(current)
    case Some(token) =>
      match jwtUtil.ExtractUsername(token, nowMs)
      case None => Thrown(JwtException)
      case Some(username) =>
        if current.Some? then Returned(current)
        else
          match LoadUserByUsername(userDetailsService, username)
          case Thrown(e) => Thrown(e)
          case Returned(userDetails) =>
            if jwtUtil.IsTokenValid(token, userDetails.username, nowMs) == Some(true) then
              Returned(Some(UsernamePasswordAuthenticationToken(userDetails, None, userDetails.GetAuthorities())))
            else Returned(current)
  }

  /**
   * On an empty context, a bearer token that parses and names a stored user installs exactly
   * that user, with no credentials and its authorities: the username comparison of
   * isTokenValid cannot fail for a user loaded by the token's own subject.
   */
  lemma {:induction false} ValidTokenInstallsUser(jwtUtil: JwtUtil, userDetailsService: UserRepository,
                                                  header: Option<string>, nowMs: int)
    requires userDetailsService.Valid()
    requires ExtractToken(header).Some?
    requires jwtUtil.ExtractAllClaims(ExtractToken(header).value, nowMs).Some?
    requires jwtUtil.ExtractAllClaims(ExtractToken(header).value, nowMs).value.subject in userDetailsService.users
    ensures var user := userDetailsService.users[jwtUtil.ExtractAllClaims(ExtractToken(header).value, nowMs).value.subject];
            Authenticate(jwtUtil, userDetailsService, header, None, nowMs)
              == Returned(Some(UsernamePasswordAuthenticationToken(user, None, user.GetAuthorities())))
  {
    var subject := jwtUtil.ExtractAllClaims(ExtractToken(header).value, nowMs).value.subject;
    assert userDetailsService.users[subject].username == subject;
  }

  class JwtAuthenticationFilter {
    const jwtUtil: JwtUtil
    const userDetailsService: UserRepository

    constructor (jwtUtil: JwtUtil, userDetailsService: UserRepository)
      ensures this.jwtUtil == jwtUtil && this.userDetailsService == userDetailsService
    {
      this.jwtUtil := jwtUtil;
      this.userDetailsService := userDetailsService;
    }

    /**
     * doFilterInternal: an exception from parsing or from the user lookup escapes, leaving
     * the context as it was and the chain not called; otherwise the context holds what
     * Authenticate decides and the chain is called exactly once.
     */
    method DoFilterInternal(header: Option<string>, nowMs: int, context: SecurityContext, chain: FilterChain)
        returns (r: Outcome<()>)
      requires userDetailsService.Valid()
      modifies context, chain
      ensures var d := Authenticate(jwtUtil, userDetailsService, header, old(context.authentication), nowMs);
              && (d.Thrown? ==> && r == Thrown(d.exception)
                                && context.authentication == old(context.authentication)
                                && chain.invocations == old(chain.invocations))
              && (d.Returned? ==> && r == Returned(())
                                  && context.authentication == d.value
                                  && chain.invocations == old(chain.invocations) + 1)
    {
      var token := ExtractToken(header);
      if token.Some? {
        var username := jwtUtil.ExtractUsername(token.value, nowMs);
        if username.None? {
          return Thrown(JwtException);
        }
        if context.authentication.None? {
          var userDetails := LoadUserByUsername(userDetailsService, username.value);
          if userDetails.Thrown? {
            return Thrown(userDetails.exception);
          }
          if jwtUtil.IsTokenValid(token.value, userDetails.value.username, nowMs) == Some(true) {
            var authentication := UsernamePasswordAuthenticationToken(userDetails.value, None, userDetails.value.GetAuthorities());
            context.SetAuthentication(authentication);
          }
        }
      }
      chain.DoFilter();
      r := Returned(());
    }
  }

  /**
   * A request carrying "Bearer " and an access token issued at `issuedMs` to a stored user
   * authenticates that user with its authorities at any time up to the token's expiry; after
   * it, the parse exception escapes the filter.
   */
  lemma {:induction false} IssuedTokenAuthenticates(jwtUtil: JwtUtil, repo: UserRepository, username: string,
                                                    issuedMs: int, nowMs: int)
    requires repo.Valid() && username in repo.users
    ensures var header := Some(AUTH_BEARER_PREFIX + jwtUtil.GenerateToken(username, issuedMs));
            var user := repo.users[username];
            && (nowMs <= issuedMs + jwtUtil.jwtExpirationTimeInSec * 1000 ==>
                  Authenticate(jwtUtil, repo, header, None, nowMs)
                    == Returned(Some(UsernamePasswordAuthenticationToken(user, None, user.GetAuthorities()))))
            && (nowMs > issuedMs + jwtUtil.jwtExpirationTimeInSec * 1000 ==>
                  Authenticate(jwtUtil, repo, header, None, nowMs) == Thrown(JwtException))
  {
    ExtractTokenOfBearer(jwtUtil.GenerateToken(username, issuedMs));
  }

  /** A token signed under another passphrase never authenticates: the parse exception escapes. */
  lemma {:induction false} ForeignTokenRejected(jwtTtl: int, refreshTtl: int, issuer: string, verifier: string,
                                                repo: UserRepository, username: string, issuedMs: int,
                                                current: Option<Authentication>, nowMs: int)
    requires issuer != verifier && repo.Valid()
    ensures var token := NewJwtUtil(jwtTtl, refreshTtl, issuer).GenerateToken(username, issuedMs);
            Authenticate(NewJwtUtil(jwtTtl, refreshTtl, verifier), repo, Some(AUTH_BEARER_PREFIX + token), current, nowMs)
              == Thrown(JwtException)
  {
    ExtractTokenOfBearer(NewJwtUtil(jwtTtl, refreshTtl, issuer).GenerateToken(username, issuedMs));
    PassphraseIsolation(jwtTtl, refreshTtl, issuer, verifier, username, issuedMs);
  }
}
