/**
 * The second copy of AuthServiceImpl (service/impl/AuthServiceImpl.java). Its bodies are
 * those of the copy in service/impl/auth except that the response keys are written as
 * literals; the contracts below are stated in terms of the ModuleConstants names, so they
 * also show that the literals agree with those names.
 */
module AuthServiceFlat {
  import opened Wrappers
  import opened Http
  import opened Exceptions
  import opened Constants
  import opened Jwt
  import opened Users
  import opened AuthService

  class AuthServiceImpl {
    const jwtUtil: JwtUtil
    const userRepository: UserRepository
    const authenticationManager: Authenticator
    const passwordEncoder: string -> string

    constructor (jwtUtil: JwtUtil, userRepository: UserRepository,
                 authenticationManager: Authenticator, passwordEncoder: string -> string)
      ensures this.jwtUtil == jwtUtil && this.userRepository == userRepository
      ensures this.authenticationManager == authenticationManager && this.passwordEncoder == passwordEncoder
    {
      this.jwtUtil := jwtUtil;
      this.userRepository := userRepository;
      this.authenticationManager := authenticationManager;
      this.passwordEncoder := passwordEncoder;
    }

    /**
     * registerUser: a taken username is answered 400 and nothing is written; otherwise
     * exactly one user is added, with the encoded password and role USER, and the answer
     * is 201 with a message and a token pair for that username.
     */
    method RegisterUser(userCredentials: UserCredentials, nowMs: int) returns (r: GenericResponse<AuthData>)
      requires userRepository.Valid()
      modifies userRepository
      ensures userRepository.Valid()
      ensures userCredentials.username in old(userRepository.users) ==>
                && r == Error(USERNAME_TAKEN, BadRequest)
                && userRepository.users == old(userRepository.users)
                && userRepository.nextId == old(userRepository.nextId)
      ensures userCredentials.username !in old(userRepository.users) ==>
                && userRepository.users == old(userRepository.users)[userCredentials.username :=
                     User(Some(old(userRepository.nextId)), userCredentials.username,
                          passwordEncoder(userCredentials.password), ROLE_USER)]
                && r.IsSuccess() && r.statusCode == 201 && r.data.Some?
                && r.data.value.Keys == {AUTH_MESSAGE, ACCESS_AUTH_TOKEN, REFRESH_AUTH_TOKEN}
                && r.data.value[AUTH_MESSAGE] == USER_REGISTERED_SUCCESS
                && IsTokenPairFor(jwtUtil, r.data.value, userCredentials.username, nowMs)
    {
      var existingUser := userRepository.FindByUsername(userCredentials.username);
      if existingUser.Some? {
        return Error(USERNAME_TAKEN, BadRequest);
      }
      var newUser := User(None, userCredentials.username, passwordEncoder(userCredentials.password), ROLE_USER);
      var _ := userRepository.Save(newUser);
      var token := jwtUtil.GenerateToken(userCredentials.username, nowMs);
      var refreshToken := jwtUtil.GenerateRefreshToken(userCredentials.username, nowMs);
      r := Success(map["message" := USER_REGISTERED_SUCCESS, "accessToken" := token,
                       "refreshToken" := refreshToken], Created);
    }

    /**
     * loginUser: authentication comes first and its failure escapes; then the user is
     * looked up (USER_NOT_FOUND when absent); then 200 with a token pair for the stored user.
     */
    function LoginUser(userCredentials: UserCredentials, nowMs: int): (r: Outcome<GenericResponse<AuthData>>)
      reads userRepository
      requires userRepository.Valid()
      ensures !authenticationManager(userRepository.users, userCredentials) <==> r == Thrown(BadCredentialsException)
      ensures authenticationManager(userRepository.users, userCredentials) && userCredentials.username !in userRepository.users ==>
                    r == Thrown(IllegalArgumentException(USER_NOT_FOUND))
      ensures authenticationManager(userRepository.users, userCredentials) && userCredentials.username in userRepository.users ==>
                    && r.Returned? && r.value.IsSuccess() && r.value.statusCode == 200 && r.value.data.Some?
                    && r.value.data.value.Keys == {AUTH_MESSAGE, ACCESS_AUTH_TOKEN, REFRESH_AUTH_TOKEN}
                    && r.value.data.value[AUTH_MESSAGE] == USER_LOGIN_SUCCESS
                    && IsTokenPairFor(jwtUtil, r.value.data.value, userCredentials.username, nowMs)
    {
      if !authenticationManager(userRepository.users, userCredentials) then Thrown(BadCredentialsException)
      else
        match userRepository.FindByUsername(userCredentials.username)
        case None => Thrown(IllegalArgumentException(USER_NOT_FOUND))
        case Some(userDetails) =>
          var token := jwtUtil.GenerateToken(userDetails.username, nowMs);
          var refreshToken := jwtUtil.GenerateRefreshToken(userDetails.username, nowMs);
          Returned(Success(map["message" := USER_LOGIN_SUCCESS, "accessToken" := token,
                               "refreshToken" := refreshToken], Ok))
    }

    /**
     * refreshToken: both extractUsername and isTokenExpired parse the token, and the parse
     * refuses unreadable and expired tokens alike, so both escape as the library's exception;
     * any other token is answered 200 with a new pair for its subject. The 403 branch is
     * never taken.
     */
    function RefreshToken(refreshToken: string, nowMs: int): (r: Outcome<GenericResponse<AuthData>>)
      ensures jwtUtil.ExtractAllClaims(refreshToken, nowMs).None? <==> r == Thrown(JwtException)
      ensures ExpiredAt(jwtUtil, refreshToken, nowMs) ==> r == Thrown(JwtException)
      ensures jwtUtil.ExtractAllClaims(refreshToken, nowMs).Some? ==>
                    && r.Returned? && r.value.IsSuccess() && r.value.statusCode == 200 && r.value.data.Some?
                    && r.value.data.value.Keys == {ACCESS_AUTH_TOKEN, REFRESH_AUTH_TOKEN}
                    && IsTokenPairFor(jwtUtil, r.value.data.value, jwtUtil.ReadClaims(refreshToken).value.subject, nowMs)
    {
      match jwtUtil.ExtractUsername(refreshToken, nowMs)
      case None => Thrown(JwtException)
      case Some(username) =>
        match jwtUtil.IsTokenExpired(refreshToken, nowMs)
        case None => Thrown(JwtException)
        case Some(expired) =>
          if expired then Returned(Error(REFRESH_TOKEN_EXPIRED, Forbidden))
          else
            var newAccessToken := jwtUtil.GenerateToken(username, nowMs);
            var newRefreshToken := jwtUtil.GenerateRefreshToken(username, nowMs);
            Returned(Success(map["accessToken" := newAccessToken, "refreshToken" := newRefreshToken], Ok))
    }
  }

  /** Both copies answer every login and every refresh identically. */
  lemma SameAnswersAsAuthPackage(a: AuthService.AuthServiceImpl, b: AuthServiceImpl, c: UserCredentials, nowMs: int, token: string)
    requires a.jwtUtil == b.jwtUtil && a.authenticationManager == b.authenticationManager
    requires a.userRepository.Valid() && b.userRepository.Valid() && a.userRepository.users == b.userRepository.users
    ensures a.LoginUser(c, nowMs) == b.LoginUser(c, nowMs)
    ensures a.RefreshToken(token, nowMs) == b.RefreshToken(token, nowMs)
  {
  }
}
