# Video streaming API: token lifecycle and video catalogue, modelled in Dafny

This project models the two stateful parts of a Spring Boot/JPA video-streaming backend.

- **Authentication and tokens.**
  - `JwtUtil` issues access and refresh tokens and reads them back.
  - Two copies of `AuthServiceImpl` register users, log them in and refresh token pairs.
  - `JwtAuthenticationFilter` reads the `Authorization: Bearer …` header and installs the
    authenticated user in the security context.
- **Video catalogue and engagement counters.**
  - Two copies of `VideoServiceImpl` publish, edit, delist, load, play, list and search videos.
  - `DBVideoStreamService` loads and plays videos and counts impressions and views.
  - `EngagementServiceImpl` and `DBEngagementStrategyServiceImpl` report those counters.
  - Supporting pieces: the request/response mappers, the `GenericResponse` envelope, the
    exception→HTTP-status table of `GlobalExceptionHandler`, and the entities `Video`,
    `VideoMetaData`, `EngagementStatistics` and `User`.

Modelling choices:

- **Java exceptions.** A call that can throw returns `Outcome<T>`, which is either
  `Returned(value)` or `Thrown(exception)`. `null` is `Option` or a nullable class type.
- **Tokens.** A token is a real string in a small compact format:
  `escaped-subject . issued-at . expiry . signature`.
  - This lets the filter's prefix stripping, `JwtUtil`'s parsing and the services' token
    handling meet on the same values.
  - The HMAC-SHA512 signature and the SHA-512 key derivation are stand-ins. The key is an
    injective function of the passphrase, and the signature is the key's digest followed by
    the signed text.
  - Parsing fails on malformed text, on a key mismatch and on an expired token, as the token
    library does.
- **Database.** The repositories are one `Database` object holding the three catalogue tables
  as values: videos, metadata and statistics, each keyed by video id.
  - `findById` materialises fresh entity objects.
  - The entity setters change those objects.
  - A save writes an object back, cascading from a video to its linked metadata and statistics.
  - `log` records every save call, so "saves nothing" and "saves exactly once" can be stated.
  - A `@Transactional` method that throws after writing restores the tables it started from.
- **Specification functions.** The effect of every state-changing service call is stated as a
  function on the tables: `Published`, `Edited`, `Delisted`, `Loaded`, `Played`,
  `StreamLoaded` and `StreamPlayed`. The lemmas are about those functions.
- **Clock.** The wall clock is an explicit `nowMs` parameter.

Exceptions that escape, as the code lets them:

- The filter lets the JwtException of `extractUsername` (a malformed, foreign or expired
  token) and the `UsernameNotFoundException` of `loadUserByUsername` escape
  (`AuthFilter.Authenticate`).
- `loginUser` lets the `AuthenticationManager`'s exception escape, and throws
  `IllegalArgumentException(USER_NOT_FOUND)` for an absent user.
- `refreshToken` lets the JwtException of the parse escape, for expired refresh tokens too
  (see Findings).
- The service interfaces declare other names and return types than the implementations. The
  implementation bodies are modelled.

## Model

| member | source | states |
|---|---|---|
| CompactJws.ParseDecimalRoundTrip | src/main/java/com/app/practice/security/JwtUtil.java:84-85 | The decimal text of an issue or expiry instant reads back as that number. |
| CompactJws.UnescapeEscape | src/main/java/com/app/practice/security/JwtUtil.java:83 | The escaped subject reads back as the subject, whatever characters it holds. |
| CompactJws.SplitCompact | src/main/java/com/app/practice/security/JwtUtil.java:81-87 | Splitting a compact token gives back its subject, its issue and expiry instants, its signing input and its signature. |
| Jwt.ParseEncode | src/main/java/com/app/practice/security/JwtUtil.java:79-133 | A token signed with a key carries, under the same key, exactly the claims it was built from. parseClaimsJws returns them up to and including the expiry instant, and refuses the token afterwards. |
| Jwt.ParseClaimsJws | src/main/java/com/app/practice/security/JwtUtil.java:126-133 | The parse succeeds iff the token is well formed, signed with the key and not expired (expiry ≥ now), and then gives the signed claims. |
| Jwt.WrongKeyRejected | src/main/java/com/app/practice/security/JwtUtil.java:126-133 | A token signed with one key does not parse under a different key. |
| Jwt.TamperedSignatureRejected | src/main/java/com/app/practice/security/JwtUtil.java:126-133 | A token whose signature was replaced does not parse. |
| Jwt.JwtUtil.GenerateTokenWithTtl | src/main/java/com/app/practice/security/JwtUtil.java:79-88 | The private generateToken: the token carries subject = username, issued-at = now and expiry = now + ttl × 1000 ms. |
| Jwt.JwtUtil.GenerateToken | src/main/java/com/app/practice/security/JwtUtil.java:63-66 | An access token's subject is the username, it is issued now, and it expires after jwtExpirationTimeInSec seconds. |
| Jwt.JwtUtil.GenerateRefreshToken | src/main/java/com/app/practice/security/JwtUtil.java:74-77 | A refresh token's subject is the username, it is issued now, and it expires after refreshExpirationTimeInSec seconds, never the access lifetime. |
| Jwt.JwtUtil.ExtractUsername | src/main/java/com/app/practice/security/JwtUtil.java:96-99 | Defined exactly when the token is readable under the key and not expired, and then equal to its subject. Otherwise the parse throws. |
| Jwt.JwtUtil.ExtractExpiration | src/main/java/com/app/practice/security/JwtUtil.java:107-110 | Defined exactly when the token is readable under the key and not expired, and then equal to its expiry. Otherwise the parse throws. |
| Jwt.JwtUtil.IsTokenExpired | src/main/java/com/app/practice/security/JwtUtil.java:156-161 | Never answers true. The expiry is read through the parse, which already refuses an expired token, so the answer is false for a readable unexpired token and the parse exception for every other token. |
| Jwt.JwtUtil.IsTokenValid | src/main/java/com/app/practice/security/JwtUtil.java:142-148 | A readable unexpired token: true iff its subject equals the user's name. Any other token, expired ones included, throws. |
| Jwt.NewJwtUtil | src/main/java/com/app/practice/security/JwtUtil.java:31-38 | The constructor keeps both lifetimes and derives the key from the passphrase once. |
| Jwt.TokenLifetime | src/main/java/com/app/practice/security/JwtUtil.java:84-161 | A token is valid for its subject at every instant up to and including its expiry. After it, isTokenValid and isTokenExpired both throw the parse exception. |
| Jwt.PassphraseIsolation | src/main/java/com/app/practice/security/JwtUtil.java:36-51 | Access and refresh tokens of a JwtUtil built from one passphrase are refused by a JwtUtil built from another. |
| Users.User.GetAuthorities | src/main/java/com/app/practice/entity/User.java:46-49 | Exactly one authority, equal to the user's role. |
| Users.AccountAlwaysActive | src/main/java/com/app/practice/entity/User.java:56-89 | Non-expired, non-locked, credentials-non-expired and enabled hold for every user. |
| Users.UserRepository.FindByUsername | src/main/java/com/app/practice/repository/UserRepository.java:31-32 | Finds the user iff one has exactly that username, and returns that row. |
| Users.UserRepository.Save | src/main/java/com/app/practice/entity/User.java:32-33 | A new user gets the next id and is stored under its username. A taken username violates the unique constraint and writes nothing. |
| Users.LoadUserByUsername | src/main/java/com/app/practice/service/impl/auth/UserDetailsServiceImpl.java:33-38 | Returns the stored user iff present, otherwise UsernameNotFoundException with the username in the message. |
| AuthService.AuthServiceImpl.RegisterUser | src/main/java/com/app/practice/service/impl/auth/AuthServiceImpl.java:49-75 | Taken username: 400 USERNAME_TAKEN and the store is unchanged. Otherwise exactly that username is added, with the encoded password and role USER, and the answer is 201 with the message and a token pair for it. |
| AuthService.AuthServiceImpl.LoginUser | src/main/java/com/app/practice/service/impl/auth/AuthServiceImpl.java:84-108 | Authentication failure escapes before any lookup (iff). An authenticated but absent user throws USER_NOT_FOUND. Otherwise 200 with the login message and a token pair for that user. Being a function, it cannot change the store. |
| AuthService.AuthServiceImpl.RefreshToken | src/main/java/com/app/practice/service/impl/auth/AuthServiceImpl.java:117-131 | A malformed, foreign or expired token throws the parse exception (iff). Otherwise 200 with exactly a new access/refresh pair for the token's subject. |
| AuthService.RefreshExpiredBranchUnreachable | src/main/java/com/app/practice/service/impl/auth/AuthServiceImpl.java:119-123 | The 403 REFRESH_TOKEN_EXPIRED answer is never returned. An expired refresh token escapes as the parse exception, and the handler answers it with 500. |
| AuthService.RefreshTokenIntended | src/main/java/com/app/practice/service/impl/auth/AuthServiceImpl.java:117-131 | As the 403 branch intends: unreadable tokens throw (iff), expired tokens give 403 REFRESH_TOKEN_EXPIRED (iff), and any other token gives 200 with a new pair for its subject. |
| AuthService.IntendedRefreshAfterLogin | src/main/java/com/app/practice/service/impl/auth/AuthServiceImpl.java:101-130 | Under the intended refresh, a login's refresh token yields a new pair within its lifetime and 403 after it. |
| AuthService.LoginNeverMissesAfterAuthentication | src/main/java/com/app/practice/service/impl/auth/AuthServiceImpl.java:86-99 | With an AuthenticationManager backed by the users table, the USER_NOT_FOUND branch is unreachable. |
| AuthService.RefreshAfterLogin | src/main/java/com/app/practice/service/impl/auth/AuthServiceImpl.java:101-130 | The refresh token from a login yields a new pair for the same user up to its expiry. After it, refreshToken throws the parse exception. |
| AuthService.RegisterThenLogin | src/main/java/com/app/practice/service/impl/auth/AuthServiceImpl.java:84-107 | With an AuthenticationManager that checks the stored encoded password, logging in with the pair just registered answers 200 with a token pair for that user. |
| AuthService.WrongPasswordRejected | src/main/java/com/app/practice/service/impl/auth/AuthServiceImpl.java:86-88 | With the same AuthenticationManager, a password whose encoding is not the stored one gives BadCredentialsException. |
| AuthServiceFlat.AuthServiceImpl.RegisterUser | src/main/java/com/app/practice/service/impl/AuthServiceImpl.java:42-64 | As in the other copy: a taken name gives 400 and no write; a new name is stored once with the encoded password and role USER, and the answer is 201 with the keys message, accessToken and refreshToken. |
| AuthServiceFlat.AuthServiceImpl.LoginUser | src/main/java/com/app/practice/service/impl/AuthServiceImpl.java:66-86 | Authenticate first (its failure escapes), then USER_NOT_FOUND, then 200 with both tokens for the user. |
| AuthServiceFlat.AuthServiceImpl.RefreshToken | src/main/java/com/app/practice/service/impl/AuthServiceImpl.java:88-102 | As in the other copy: a malformed, foreign or expired token throws the parse exception (iff), and the 403 branch is never taken. Otherwise 200 with a new pair for the same subject. |
| AuthServiceFlat.SameAnswersAsAuthPackage | src/main/java/com/app/practice/service/impl/AuthServiceImpl.java:66-102 | Over the same store and collaborators, both copies answer every login and refresh identically. The literal keys agree with the named constants. |
| AuthFilter.ExtractToken | src/main/java/com/app/practice/security/JwtAuthenticationFilter.java:82-89 | A token exists iff the header is present and starts with the case-sensitive "Bearer ". The header is then the prefix followed by the token. |
| AuthFilter.ExtractTokenOfBearer | src/main/java/com/app/practice/security/JwtAuthenticationFilter.java:87-88 | extractToken("Bearer " + t) == t: the prefix is stripped exactly once. |
| AuthFilter.Authenticate | src/main/java/com/app/practice/security/JwtAuthenticationFilter.java:47-69 | No token leaves the context as it is. An existing authentication is never overwritten. Parse failures (expired tokens included) and lookup failures escape (iff). A new principal is installed only for a valid token, and is the stored user with its authorities. |
| AuthFilter.ValidTokenInstallsUser | src/main/java/com/app/practice/security/JwtAuthenticationFilter.java:50-66 | On an empty context, a bearer token that parses and names a stored user installs exactly that user, with no credentials and its authorities. |
| AuthFilter.JwtAuthenticationFilter.DoFilterInternal | src/main/java/com/app/practice/security/JwtAuthenticationFilter.java:43-73 | The context ends as Authenticate decides. The chain is called exactly once on normal completion, and not at all when an exception escapes. |
| AuthFilter.IssuedTokenAuthenticates | src/main/java/com/app/practice/security/JwtAuthenticationFilter.java:50-66 | A bearer header with an access token issued to a stored user authenticates that user with its authorities up to the token's expiry. After it, the parse exception escapes the filter. |
| AuthFilter.ForeignTokenRejected | src/main/java/com/app/practice/security/JwtAuthenticationFilter.java:52 | A token signed under another passphrase never authenticates; the parse exception escapes. |
| Http.Success | src/main/java/com/app/practice/model/response/GenericResponse.java:33-35 | Status "success", the given data, no error, and statusCode is the numeric code of the status. |
| Http.Error | src/main/java/com/app/practice/model/response/GenericResponse.java:44-46 | Status "error", no data, the given message, and statusCode is the numeric code of the status. |
| Http.HttpStatus.Value | src/main/java/com/app/practice/model/response/GenericResponse.java:33-46 | The numeric code of each status used, between 200 and 599. |
| Http.ValueInjective | src/main/java/com/app/practice/model/response/GenericResponse.java:33-46 | Distinct statuses have distinct numeric codes. |
| Exceptions.HandlerStatus | src/main/java/com/app/practice/exception/GlobalExceptionHandler.java:48-111 | 404 iff resource/video not found; 401 iff invalid credentials; 409 iff user exists or video already present; 500 for every other exception. |
| Exceptions.BuildResponseEntity | src/main/java/com/app/practice/exception/GlobalExceptionHandler.java:31-38 | The body holds timestamp, numeric status, reason phrase and message in that insertion order, and the entity carries the given status. |
| Exceptions.HandleException | src/main/java/com/app/practice/exception/GlobalExceptionHandler.java:48-111 | The handler answers with the mapped status and the exception's message. |
| VideoEntities.Video.constructor | src/main/java/com/app/practice/entity/Video.java:28-38 | A new video is not delisted and has no id or links. |
| VideoEntities.Video.SetDelisted | src/main/java/com/app/practice/entity/Video.java:78-80 | Only the delisted flag changes. |
| VideoEntities.Video.SetMetaData | src/main/java/com/app/practice/entity/Video.java:86-89 | The video links the metadata, and the metadata's back-reference is this video. |
| VideoEntities.Video.SetEngagementStatistics | src/main/java/com/app/practice/entity/Video.java:95-97 | Only the forward link is set; no back-reference is written. |
| VideoEntities.EngagementStatistics.constructor | src/main/java/com/app/practice/entity/EngagementStatistics.java:15-24 | New statistics start at 0 impressions and 0 views. |
| VideoEntities.EngagementStatistics.SetImpressions | src/main/java/com/app/practice/entity/EngagementStatistics.java:45-47 | Only impressions change. |
| VideoEntities.EngagementStatistics.SetViews | src/main/java/com/app/practice/entity/EngagementStatistics.java:53-55 | Only views change. |
| VideoRequests.ToVideo | src/main/java/com/app/practice/model/request/VideoRequest.java:127-133 | A fresh video with exactly the request's title and content, not delisted, without id or links. |
| VideoRequests.ToVideoMetadata | src/main/java/com/app/practice/model/request/VideoRequest.java:142-153 | Fresh metadata with the six request fields, no id, and linked to the given video. |
| VideoRequests.ToEngagementStatistics | src/main/java/com/app/practice/model/request/VideoRequest.java:161-166 | Fresh statistics linked to the video, at 0 impressions and 0 views. |
| VideoResponses.VideoMapper | src/main/java/com/app/practice/model/response/VideoResponse.java:160-177 | Throws NullPointerException iff metadata or statistics are missing. Otherwise title, content and delisted come from the video, the six descriptive fields from the metadata, and the counts from the statistics. |
| VideoResponses.DefaultVideoResponse | src/main/java/com/app/practice/model/response/VideoResponse.java:23-25 | A default response is not delisted and has zero counts. |
| VideoStore.Tables.Written | src/main/java/com/app/practice/entity/Video.java:30-34 | After a cascaded save at an id, that id holds the saved video row, each linked child replaces the child row, and an unlinked child leaves its row as it was. |
| VideoStore.WrittenKeepsOthers | src/main/java/com/app/practice/entity/Video.java:30-34 | A cascaded save changes no other id's rows in any table. Saving an existing video or the next one, under a title no other video holds, keeps ids below nextId, children attached to videos and titles unique. |
| VideoStore.Tables.FindByIsDelistedFalse | src/main/java/com/app/practice/repository/VideoRepository.java:44-45 | Exactly the videos not delisted, in ascending id order. |
| VideoStore.Tables.FindByDirectorIgnoreCase | src/main/java/com/app/practice/service/impl/VideoServiceImpl.java:283 | Exactly the metadata whose director equals the argument ignoring ASCII case, in ascending id order. |
| VideoStore.Tables.SearchByKeyword | src/main/java/com/app/practice/utils/VideoMetaDataSpecification.java:25-38 | Exactly the metadata where the lower-cased phrase occurs in the lower-cased director, genre or cast. |
| VideoStore.Scan | src/main/java/com/app/practice/repository/VideoRepository.java:44-45 | Exactly the ids below the bound that satisfy the query condition, strictly ascending. |
| VideoStore.Database.ExistsByTitle | src/main/java/com/app/practice/repository/VideoRepository.java:32-33 | True iff some video has exactly that title. |
| VideoStore.Database.FindById | src/main/java/com/app/practice/service/impl/VideoServiceImpl.java:104-108 | null iff the id is missing. Otherwise a fresh video whose fields and links mirror the rows of that id. |
| VideoStore.Database.SaveVideo | src/main/java/com/app/practice/service/impl/VideoServiceImpl.java:125 | Inserts under the next id, or updates the row of the video's id, with its cascade. A title held by another video writes nothing. |
| VideoStore.Database.SaveMetaData | src/main/java/com/app/practice/service/impl/VideoServiceImpl.java:123 | Writes the metadata row of its video. A missing video writes nothing. |
| VideoStore.Database.SaveStats | src/main/java/com/app/practice/service/impl/VideoServiceImpl.java:194 | Writes the statistics row of its video. A missing video writes nothing. |
| VideoService.EditedMetaData | src/main/java/com/app/practice/service/impl/VideoServiceImpl.java:111-121 | Director, genre, cast, year and running time come from the request. The synopsis is kept, or empty for new metadata. |
| VideoService.DtosOf | src/main/java/com/app/practice/service/impl/VideoServiceImpl.java:256-260 | Throws NullPointerException iff some listed video has no metadata. Otherwise one DTO per id, in order. |
| VideoService.VideoServiceImpl.PublishVideo | src/main/java/com/app/practice/service/impl/VideoServiceImpl.java:64-87 | A present title throws VideoAlreadyPresentException, with the title in the message, and saves nothing. Otherwise exactly one save inserts the video, its metadata and zeroed statistics under the next id, and the answer is 201 with their response. Also src/main/java/com/app/practice/service/impl/video/VideoServiceImpl.java:57-77. |
| VideoService.VideoServiceImpl.EditVideo | src/main/java/com/app/practice/service/impl/VideoServiceImpl.java:99-131 | A missing id throws VIDEO_NOT_FOUND and saves nothing. Otherwise the metadata and then the video are saved, giving the tables of Edited. A missing statistics row (mapper) or a title clash (commit) rolls back. Also src/main/java/com/app/practice/service/impl/video/VideoServiceImpl.java:89-121. |
| VideoService.VideoServiceImpl.DelistVideo | src/main/java/com/app/practice/service/impl/VideoServiceImpl.java:142-159 | A missing id throws. Otherwise the video ends delisted, a save happens only on the false→true transition, and the answer is always 200 with the success message. Also src/main/java/com/app/practice/service/impl/video/VideoServiceImpl.java:132-148. |
| VideoService.VideoServiceImpl.LoadVideo | src/main/java/com/app/practice/service/impl/VideoServiceImpl.java:170-204 | Missing or delisted videos throw and change nothing. Otherwise statistics are saved once as Loaded and the DTO is returned; missing metadata throws NullPointerException and rolls back. |
| VideoService.VideoServiceImpl.PlayVideo | src/main/java/com/app/practice/service/impl/VideoServiceImpl.java:215-242 | Missing or delisted videos throw and change nothing. Otherwise statistics then the video are saved, giving the tables of Played, and the content is returned with 200. |
| VideoService.VideoServiceImpl.ListAllVideos | src/main/java/com/app/practice/service/impl/VideoServiceImpl.java:252-262 | One DTO per row of findByIsDelistedFalse, in the query's order. So every DTO is of a listed video and every listed video has its DTO. A listed video without metadata throws (iff). Also src/main/java/com/app/practice/service/impl/video/VideoServiceImpl.java:158-168. |
| VideoService.VideoServiceImpl.SearchVideos | src/main/java/com/app/practice/service/impl/VideoServiceImpl.java:273-291 | A blank director gives 400 INVALID_DIRECTOR_NAME. Otherwise 200 with one DTO per row of findByDirectorIgnoreCase, in the query's order: exactly that director's videos, ignoring case. Also src/main/java/com/app/practice/service/impl/video/VideoServiceImpl.java:179-197. |
| VideoService.VideoServiceImpl.SearchVideosBasedOnSearchPhrase | src/main/java/com/app/practice/service/impl/VideoServiceImpl.java:302-321 | A blank phrase gives 400 INVALID_SEARCH_PHRASE. Otherwise 200 with one DTO per row of the keyword query, in its order: exactly the keyword matches. Also src/main/java/com/app/practice/service/impl/video/VideoServiceImpl.java:208-227. |
| VideoService.DtosOfMetaData | src/main/java/com/app/practice/service/impl/VideoServiceImpl.java:285-288 | One DTO per metadata row found, in order, and each found row has its DTO. |
| VideoService.DelistIdempotent | src/main/java/com/app/practice/service/impl/VideoServiceImpl.java:152-158 | Delisting twice leaves the same tables as delisting once. |
| VideoService.DelistHidesFromListing | src/main/java/com/app/practice/service/impl/VideoServiceImpl.java:152-158 | After delisting, the video is no longer listed, the others keep their status, and title uniqueness is kept. |
| VideoService.PublishedListed | src/main/java/com/app/practice/service/impl/VideoServiceImpl.java:68-86 | Publishing a fresh title keeps titles unique and leaves other videos unchanged. The new video is listed, with the request's data, not delisted and with zero counts. |
| VideoService.EditKeepsFlagAndCounters | src/main/java/com/app/practice/service/impl/VideoServiceImpl.java:110-125 | An edit changes only that video's title and metadata; content, delisted flag and counters stay. |
| VideoService.LoadCountsImpression | src/main/java/com/app/practice/service/impl/VideoServiceImpl.java:185-196 | Load adds one impression and keeps views. Absent statistics are created at one view and one impression. |
| VideoService.PlayCountsView | src/main/java/com/app/practice/service/impl/VideoServiceImpl.java:230-236 | Play adds one view and keeps impressions. Absent statistics start from zero. |
| StreamService.DBVideoStreamService.constructor | src/main/java/com/app/practice/service/impl/streaming/DBVideoStreamService.java:27-28 | isLoadAndPlayLinked defaults to false. |
| StreamService.DBVideoStreamService.FetchVideoById | src/main/java/com/app/practice/service/impl/streaming/DBVideoStreamService.java:40-53 | A missing id throws VIDEO_NOT_FOUND. A delisted video throws VIDEO_DELISTED. Otherwise the materialised video. |
| StreamService.DBVideoStreamService.UpdateEngagementStatistics | src/main/java/com/app/practice/service/impl/streaming/DBVideoStreamService.java:62-79 | One save; views + 1, and impressions + 1 iff asked, from 0/0 when absent. |
| StreamService.DBVideoStreamService.UpdateImpressionEngagementStatistics | src/main/java/com/app/practice/service/impl/streaming/DBVideoStreamService.java:81-94 | One save; impressions + 1 from 0/0 when absent; views kept. |
| StreamService.DBVideoStreamService.LoadVideo | src/main/java/com/app/practice/service/impl/streaming/DBVideoStreamService.java:98-110 | Missing or delisted videos throw before any counting. Otherwise one statistics save and the DTO (id, title, director, cast, genre, running time); missing metadata throws and rolls back. |
| StreamService.DBVideoStreamService.PlayVideo | src/main/java/com/app/practice/service/impl/streaming/DBVideoStreamService.java:114-123 | Missing or delisted videos throw before any counting. Otherwise one statistics save, counted as StreamPlayed under the flag, and the content with 200. |
| StreamService.StreamLoadCounts | src/main/java/com/app/practice/service/impl/streaming/DBVideoStreamService.java:81-94 | Exactly one more impression, the same views, nothing else changed. |
| StreamService.StreamPlayCounts | src/main/java/com/app/practice/service/impl/streaming/DBVideoStreamService.java:62-79 | Exactly one more view, and one more impression iff isLoadAndPlayLinked. |
| StreamService.LinkedPlayIsLoadThenPlay | src/main/java/com/app/practice/service/impl/streaming/DBVideoStreamService.java:62-94 | A linked play counts what a load plus an unlinked play count, and unlinked load and play commute. |
| StreamService.LoadCopiesAgreeUnlessFirst | src/main/java/com/app/practice/service/impl/streaming/DBVideoStreamService.java:81-94 | The stream and catalogue loads agree when statistics exist. On a first load the catalogue service records one view and the stream service none. |
| Engagement.EngagementServiceImpl.GetEngagementStats | src/main/java/com/app/practice/service/impl/EngagementServiceImpl.java:29-68 | Missing video: 404 VIDEO_NOT_FOUND. Missing metadata: 500 with the generic message. Otherwise 200 with title, synopsis and director, and the stored counts or 0/0 when statistics are absent. Read-only. |
| Engagement.DBEngagementStrategyServiceImpl.GetEngagementStats | src/main/java/com/app/practice/service/impl/engagement/DBEngagementStrategyServiceImpl.java:39-63 | Missing video: 404. Missing statistics or metadata: 500 "Internal Server Error". Success iff all three rows exist, and then reports the stored counts exactly. Read-only. |
| Engagement.ServicesAgreeOnStoredCounters | src/main/java/com/app/practice/service/impl/EngagementServiceImpl.java:45-58 | Whenever the strategy service succeeds, the two services answer the same; only the first succeeds when statistics are absent. |
| Engagement.PlayShowsInReport | src/main/java/com/app/practice/service/impl/engagement/DBEngagementStrategyServiceImpl.java:46-56 | After a stream play the reported views are one higher, and the reported impressions are one higher exactly when load and play are linked. |

## Left out

- Cryptography:
  - HMAC-SHA512 signing and SHA-512 key derivation are stand-ins: an injective key tag, and a
    signature that is the key's digest followed by the signed text.
  - The JJWT token format (base64url JSON segments) is replaced by a simpler compact text with
    the same three claims.
  - BCrypt is the parameter `passwordEncoder`. The `AuthenticationManager` is the parameter
    `authenticationManager`, a predicate over the users table.
- Instants: the token library truncates the issue and expiry instants to whole seconds; the
  model keeps milliseconds. Its allowed clock skew is zero, which the model keeps.
- Java `long` overflow of `now + ttl * 1000` and of the counters (`Long` increments) is not
  modelled: integers are unbounded.
- `Jwt.JwtUtil.GenerateTokenWithTtl`: the two `System.currentTimeMillis()` reads of the
  private generateToken are one `nowMs` argument.
- Each service call reads the clock once: the instant of the parse and the `new Date()` of
  isTokenExpired are the same `nowMs`. An expiry that falls between the two reads, which
  would reach the 403 branch of refreshToken, is not modelled.
- `Exceptions.HandleException`: the message of the library exceptions (BadCredentialsException,
  the JwtExceptions, NullPointerException, DataIntegrityViolationException) is modelled as
  "". The program answers with the library's own text, such as "Bad credentials", which the
  source does not define.
- Pagination: the `page`/`size` arguments of list and search and the `PageRequest` they build
  are not modelled. The list and search members return the whole query result.
- Result order: the JPQL queries have no ORDER BY. The model returns ascending id order.
- LIKE semantics: `%` or `_` inside a search phrase act as wildcards in the database but are
  literal characters here. Lower-casing covers ASCII letters only.
- Java `null` strings are `""`, and `null` Integer fields are `0`.
- Child-row surrogate ids are not modelled: the metadata and statistics tables are keyed by
  their video's id.
- Orphan removal, dirty checking at flush, lazy loading and detached entities are not modelled.
- `Users.UserRepository.Save`: only saves of new users (no id) are modelled, as the services
  only make those.
- `VideoStore.Database.SaveVideo`: a video with an id that is not in the table (a detached
  merge) is not modelled; callers only save materialised or new videos.
- Concurrency: races on check-then-insert of usernames and titles are not modelled; saves are
  sequential.
- Controllers, Spring configuration, Kafka services, logging and Swagger are outside the model.
- `ModuleConstants.GENERIC_ERROR_MESSAGE` is not defined in the constants class, so
  `EngagementServiceImpl.getEngagementStats` takes that message as a parameter.
- The filter's `username != null` test is always true after a successful parse, so it has no
  branch in the model.
- The copy under service/impl/video has the same bodies for publish, edit, delist, list and
  the two searches, and has no load or play. The members of `VideoService` model both copies;
  the Model rows cite both.
- `VideoMetaDataRepository` and `EngagementStatisticsRepository` are not part of this model
  beyond the queries stated on `VideoStore.Tables`.

## Findings

| source | as written | input that shows it | evidently intended | confidence | as-written member | corrected member |
|---|---|---|---|---|---|---|
| src/main/java/com/app/practice/service/impl/auth/AuthServiceImpl.java:119-123 | extractUsername parses the refresh token, and the parse refuses an expired token, so the exception escapes before isTokenExpired is asked; the 403 REFRESH_TOKEN_EXPIRED branch is dead and the handler answers 500. The copy at service/impl/AuthServiceImpl.java:90-94 is the same. | a refresh token issued by login and presented after its refresh lifetime | 403 REFRESH_TOKEN_EXPIRED for an expired refresh token, a new pair before expiry | medium, not executed; rests on the token library refusing expired tokens while parsing | AuthService.RefreshExpiredBranchUnreachable | AuthService.IntendedRefreshAfterLogin |
