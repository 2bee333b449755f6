/**
 * AuthServiceImpl (service/impl/auth/AuthServiceImpl.java): register, login and refresh
 * over the users table. The password encoder (BCrypt) and the AuthenticationManager are
 * parameters of the service; the clock is the `nowMs` argument.
 */
module AuthService {
  import opened Wrappers
  import opened Http
  import opened Exceptions
  import opened Constants
  import opened Jwt
  import opened Users

  /** The Map<String, String> carried by the responses. */
  type AuthData = map<string, string>

  datatype UserCredentials = UserCredentials(username: string, password: string)

  /**
   * AuthenticationManager.authenticate over the current users table: true when it accepts
   * the credentials, false when it throws BadCredentialsException.
   */
  type Authenticator = (map<string, User>, UserCredentials) -> bool

  /**
   * `d` holds a fresh access/refresh pair for `username` issued at `nowMs` by `jwt`:
   * both tokens carry the subject and the issue instant, and each expires after its own
   * configured lifetime.
   */
  predicate IsTokenPairFor(jwt: JwtUtil, d: AuthData, username: string, nowMs: int) {
    && ACCESS_AUTH_TOKEN in d && REFRESH_AUTH_TOKEN in d
    && jwt.ReadClaims(d[ACCESS_AUTH_TOKEN]) == Some(Claims(username, nowMs, nowMs + jwt.jwtExpirationTimeInSec * 1000))
    && jwt.ReadClaims(d[REFRESH_AUTH_TOKEN]) == Some(Claims(username, nowMs, nowMs + jwt.refreshExpirationTimeInSec * 1000))
  }

  /** An AuthenticationManager backed by the users table, as DaoAuthenticationProvider is. */
  ghost predicate ConsultsStore(authenticate: Authenticator) {
    forall users: map<string, User>, c: UserCredentials :: authenticate(users, c) ==> c.username in users
  }

  /**
   * The DaoAuthenticationProvider contract: the credentials are accepted exactly when the
   * username is stored and the stored password is the encoding of the one presented.
   */
  ghost predicate ChecksStoredPassword(authenticate: Authenticator, passwordEncoder: string -> string) {
    forall users: map<string, User>, c: UserCredentials ::
      authenticate(users, c) <==> c.username in users && users[c.username].password == passwordEncoder(c.password)
  }

  /** A refresh token is expired at `nowMs`: it is readable and its expiry lies before now. */
  predicate ExpiredAt(jwt: JwtUtil, token: string, nowMs: int) {
    jwt.ReadClaims(token).Some? && jwt.ReadClaims(token).value.expirationMs < nowMs
  }

  class AuthServiceImpl {
    const jwtUtil: JwtUtil
    const userRepository: UserRepository
    const authenticationManager: Authenticator
    const passwordEncoder: string -> string

    constructor (jwtUtil: JwtUtil, userRepository: UserRepository,
                 authenticationManager: Authenticator, passwordEncoder: string -> string)
      ensures this.jwtUtil == jwtUtil && this.userRepository == userRepository
      ensures this.authenticationManager == authenticationManager && this.passwordEncoder == passwordEncoder
    {
      this.jwtUtil := jwtUtil;
      this.userRepository := userRepository;
      this.authenticationManager := authenticationManager;
      this.passwordEncoder := passwordEncoder;
    }

    /**
     * registerUser: a taken username is answered 400 and nothing is written; otherwise
     * exactly one user is added, with the encoded password and role USER, and the answer
     * is 201 with a message and a token pair for that username.
     */
    method RegisterUser(userCredentials: UserCredentials, nowMs: int) returns (r: GenericResponse<AuthData>)
      requires userRepository.Valid()
      modifies userRepository
      ensures userRepository.Valid()
      ensures userCredentials.username in old(userRepository.users) ==>
                && r == Error(USERNAME_TAKEN, BadRequest)
                && userRepository.users == old(userRepository.users)
                && userRepository.nextId == old(userRepository.nextId)
      ensures userCredentials.username !in old(userRepository.users) ==>
                && userRepository.users == old(userRepository.users)[userCredentials.username :=
                     User(Some(old(userRepository.nextId)), userCredentials.username,
                          passwordEncoder(userCredentials.password), ROLE_USER)]
                && r.IsSuccess() && r.statusCode == 201 && r.data.Some?
                && r.data.value.Keys == {AUTH_MESSAGE, ACCESS_AUTH_TOKEN, REFRESH_AUTH_TOKEN}
                && r.data.value[AUTH_MESSAGE] == USER_REGISTERED_SUCCESS
                && IsTokenPairFor(jwtUtil, r.data.value, userCredentials.username, nowMs)
    {
      var existingUser := userRepository.FindByUsername(userCredentials.username);
      if existingUser.Some? {
        return Error(USERNAME_TAKEN, BadRequest);
      }
      var newUser := User(None, userCredentials.username, passwordEncoder(userCredentials.password), ROLE_USER);
      var _ := userRepository.Save(newUser);
      var token := jwtUtil.GenerateToken(userCredentials.username, nowMs);
      var refreshToken := jwtUtil.GenerateRefreshToken(userCredentials.username, nowMs);
      r := Success(map[AUTH_MESSAGE := USER_REGISTERED_SUCCESS, ACCESS_AUTH_TOKEN := token,
                       REFRESH_AUTH_TOKEN := refreshToken], Created);
    }

    /**
     * loginUser: authentication comes first and its failure escapes; then the user is
     * looked up (USER_NOT_FOUND when absent); then 200 with a token pair for the stored user.
     */
    function LoginUser(userCredentials: UserCredentials, nowMs: int): (r: Outcome<GenericResponse<AuthData>>)
      reads userRepository
      requires userRepository.Valid()
      ensures !authenticationManager(userRepository.users, userCredentials) <==> r == Thrown(BadCredentialsException)
      ensures authenticationManager(userRepository.users, userCredentials) && userCredentials.username !in userRepository.users ==>
                    r == Thrown(IllegalArgumentException(USER_NOT_FOUND))
      ensures authenticationManager(userRepository.users, userCredentials) && userCredentials.username in userRepository.users ==>
                    && r.Returned? && r.value.IsSuccess() && r.value.statusCode == 200 && r.value.data.Some?
                    && r.value.data.value.Keys == {AUTH_MESSAGE, ACCESS_AUTH_TOKEN, REFRESH_AUTH_TOKEN}
                    && r.value.data.value[AUTH_MESSAGE] == USER_LOGIN_SUCCESS
                    && IsTokenPairFor(jwtUtil, r.value.data.value, userCredentials.username, nowMs)
    {
      if !authenticationManager(userRepository.users, userCredentials) then Thrown(BadCredentialsException)
      else
        match userRepository.FindByUsername(userCredentials.username)
        case None => Thrown(IllegalArgumentException(USER_NOT_FOUND))
        case Some(userDetails) =>
          var token := jwtUtil.GenerateToken(userDetails.username, nowMs);
          var refreshToken := jwtUtil.GenerateRefreshToken(userDetails.username, nowMs);
          Returned(Success(map[AUTH_MESSAGE := USER_LOGIN_SUCCESS, ACCESS_AUTH_TOKEN := token,
                               REFRESH_AUTH_TOKEN := refreshToken], Ok))
    }

    /**
     * refreshToken: both extractUsername and isTokenExpired parse the token, and the parse
     * refuses unreadable and expired tokens alike, so both escape as the library's exception;
     * any other token is answered 200 with a new pair for its subject. The 403 branch is
     * never taken.
     */
    function RefreshToken(refreshToken: string, nowMs: int): (r: Outcome<GenericResponse<AuthData>>)
      ensures jwtUtil.ExtractAllClaims(refreshToken, nowMs).None? <==> r == Thrown(JwtException)
      ensures ExpiredAt(jwtUtil, refreshToken, nowMs) ==> r == Thrown(JwtException)
      ensures jwtUtil.ExtractAllClaims(refreshToken, nowMs).Some? ==>
                    && r.Returned? && r.value.IsSuccess() && r.value.statusCode == 200 && r.value.data.Some?
                    && r.value.data.value.Keys == {ACCESS_AUTH_TOKEN, REFRESH_AUTH_TOKEN}
                    && IsTokenPairFor(jwtUtil, r.value.data.value, jwtUtil.ReadClaims(refreshToken).value.subject, nowMs)
    {
      match jwtUtil.ExtractUsername(refreshToken, nowMs)
      case None => Thrown(JwtException)
      case Some(username) =>
        match jwtUtil.IsTokenExpired(refreshToken, nowMs)
        case None => Thrown(JwtException)
        case Some(expired) =>
          if expired then Returned(Error(REFRESH_TOKEN_EXPIRED, Forbidden))
          else
            var newAccessToken := jwtUtil.GenerateToken(username, nowMs);
            var newRefreshToken := jwtUtil.GenerateRefreshToken(username, nowMs);
            Returned(Success(map[ACCESS_AUTH_TOKEN := newAccessToken, REFRESH_AUTH_TOKEN := newRefreshToken], Ok))
    }
  }

  /**
   * refreshToken as its REFRESH_TOKEN_EXPIRED branch intends it: the claims are read with the
   * signature checked but without the parse's own expiry check (as reading them from the
   * ExpiredJwtException would), so an expired refresh token reaches the 403 answer.
   */
  function RefreshTokenIntended(jwtUtil: JwtUtil, refreshToken: string, nowMs: int): (r: Outcome<GenericResponse<AuthData>>)
    ensures jwtUtil.ReadClaims(refreshToken).None? <==> r == Thrown(JwtException)
    ensures ExpiredAt(jwtUtil, refreshToken, nowMs) <==> r == Returned(Error(REFRESH_TOKEN_EXPIRED, Forbidden))
    ensures jwtUtil.ReadClaims(refreshToken).Some? && !ExpiredAt(jwtUtil, refreshToken, nowMs) ==>
              && r.Returned? && r.value.IsSuccess() && r.value.statusCode == 200 && r.value.data.Some?
              && r.value.data.value.Keys == {ACCESS_AUTH_TOKEN, REFRESH_AUTH_TOKEN}
              && IsTokenPairFor(jwtUtil, r.value.data.value, jwtUtil.ReadClaims(refreshToken).value.subject, nowMs)
  {
    match jwtUtil.ReadClaims(refreshToken)
    case None => Thrown(JwtException)
    case Some(claims) =>
      if claims.expirationMs < nowMs then Returned(Error(REFRESH_TOKEN_EXPIRED, Forbidden))
      else
        var newAccessToken := jwtUtil.GenerateToken(claims.subject, nowMs);
        var newRefreshToken := jwtUtil.GenerateRefreshToken(claims.subject, nowMs);
        Returned(Success(map[ACCESS_AUTH_TOKEN := newAccessToken, REFRESH_AUTH_TOKEN := newRefreshToken], Ok))
  }

  /**
   * The 403 REFRESH_TOKEN_EXPIRED answer of refreshToken is unreachable: an expired refresh
   * token escapes as the parse exception, which GlobalExceptionHandler answers with 500.
   */
  lemma {:induction false} RefreshExpiredBranchUnreachable(s: AuthServiceImpl, token: string, nowMs: int, handledAt: int)
    ensures s.RefreshToken(token, nowMs) != Returned(Error(REFRESH_TOKEN_EXPIRED, Forbidden))
    ensures ExpiredAt(s.jwtUtil, token, nowMs) ==>
              && s.RefreshToken(token, nowMs) == Thrown(JwtException)
              && HandleException(s.RefreshToken(token, nowMs).exception, handledAt).status == InternalServerError
  {
    if s.jwtUtil.ExtractAllClaims(token, nowMs).Some? {
      assert s.RefreshToken(token, nowMs).value.IsSuccess();
    }
  }

  /**
   * With an AuthenticationManager that only accepts stored users, loginUser never reaches
   * its USER_NOT_FOUND branch.
   */
  lemma {:induction false} LoginNeverMissesAfterAuthentication(s: AuthServiceImpl, c: UserCredentials, nowMs: int)
    requires s.userRepository.Valid() && ConsultsStore(s.authenticationManager)
    ensures s.LoginUser(c, nowMs) != Thrown(IllegalArgumentException(USER_NOT_FOUND))
  {
    if s.authenticationManager(s.userRepository.users, c) {
      assert c.username in s.userRepository.users;
    }
  }

  /**
   * Rotation: the refresh token handed out by a login at `loginMs`, presented at `refreshMs`
   * within its lifetime, yields a new pair for the same user issued at `refreshMs`; presented
   * after its lifetime, it makes refreshToken throw the parse exception.
   */
  lemma {:induction false} RefreshAfterLogin(s: AuthServiceImpl, c: UserCredentials, loginMs: int, refreshMs: int)
    requires s.userRepository.Valid()
    requires s.authenticationManager(s.userRepository.users, c) && c.username in s.userRepository.users
    requires s.LoginUser(c, loginMs).Returned?
    ensures var rt := s.LoginUser(c, loginMs).value.data.value[REFRESH_AUTH_TOKEN];
            && (refreshMs <= loginMs + s.jwtUtil.refreshExpirationTimeInSec * 1000 ==>
                  && s.RefreshToken(rt, refreshMs).Returned?
                  && s.RefreshToken(rt, refreshMs).value.IsSuccess()
                  && IsTokenPairFor(s.jwtUtil, s.RefreshToken(rt, refreshMs).value.data.value, c.username, refreshMs))
            && (refreshMs > loginMs + s.jwtUtil.refreshExpirationTimeInSec * 1000 ==>
                  s.RefreshToken(rt, refreshMs) == Thrown(JwtException))
  {
    var rt := s.LoginUser(c, loginMs).value.data.value[REFRESH_AUTH_TOKEN];
    assert s.jwtUtil.ReadClaims(rt).Some?;
    assert s.jwtUtil.ReadClaims(rt).value.subject == c.username;
  }

  /**
   * Rotation as intended: the login's refresh token yields a new pair within its lifetime
   * and is answered 403 REFRESH_TOKEN_EXPIRED after it.
   */
  lemma {:induction false} IntendedRefreshAfterLogin(s: AuthServiceImpl, c: UserCredentials, loginMs: int, refreshMs: int)
    requires s.userRepository.Valid()
    requires s.authenticationManager(s.userRepository.users, c) && c.username in s.userRepository.users
    requires s.LoginUser(c, loginMs).Returned?
    ensures var rt := s.LoginUser(c, loginMs).value.data.value[REFRESH_AUTH_TOKEN];
            && (refreshMs <= loginMs + s.jwtUtil.refreshExpirationTimeInSec * 1000 ==>
                  && RefreshTokenIntended(s.jwtUtil, rt, refreshMs).Returned?
                  && RefreshTokenIntended(s.jwtUtil, rt, refreshMs).value.IsSuccess()
                  && IsTokenPairFor(s.jwtUtil, RefreshTokenIntended(s.jwtUtil, rt, refreshMs).value.data.value, c.username, refreshMs))
            && (refreshMs > loginMs + s.jwtUtil.refreshExpirationTimeInSec * 1000 ==>
                  RefreshTokenIntended(s.jwtUtil, rt, refreshMs) == Returned(Error(REFRESH_TOKEN_EXPIRED, Forbidden)))
  {
    var rt := s.LoginUser(c, loginMs).value.data.value[REFRESH_AUTH_TOKEN];
    assert s.jwtUtil.ReadClaims(rt).Some?;
    assert s.jwtUtil.ReadClaims(rt).value.subject == c.username;
  }

  /**
   * Register, then log in with the same pair: once the users table holds the row
   * registerUser writes, loginUser answers 200 with a token pair for that user.
   */
  lemma {:induction false} RegisterThenLogin(s: AuthServiceImpl, c: UserCredentials, id: nat, nowMs: int)
    requires s.userRepository.Valid() && ChecksStoredPassword(s.authenticationManager, s.passwordEncoder)
    requires c.username in s.userRepository.users
    requires s.userRepository.users[c.username] == User(Some(id), c.username, s.passwordEncoder(c.password), ROLE_USER)
    ensures s.LoginUser(c, nowMs).Returned?
    ensures s.LoginUser(c, nowMs).value.IsSuccess() && s.LoginUser(c, nowMs).value.statusCode == 200
    ensures IsTokenPairFor(s.jwtUtil, s.LoginUser(c, nowMs).value.data.value, c.username, nowMs)
  {
    assert s.authenticationManager(s.userRepository.users, c);
  }

  /** Logging in with a password whose encoding is not the stored one fails with BadCredentialsException. */
  lemma {:induction false} WrongPasswordRejected(s: AuthServiceImpl, c: UserCredentials, nowMs: int)
    requires s.userRepository.Valid() && ChecksStoredPassword(s.authenticationManager, s.passwordEncoder)
    requires c.username in s.userRepository.users
    requires s.userRepository.users[c.username].password != s.passwordEncoder(c.password)
    ensures s.LoginUser(c, nowMs) == Thrown(BadCredentialsException)
  {
    assert !s.authenticationManager(s.userRepository.users, c);
  }
}
