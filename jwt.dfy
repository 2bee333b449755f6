/**
 * JwtUtil: issuing access and refresh tokens and reading them back.
 * The clock is a parameter (`nowMs`, milliseconds since the epoch); the two clock reads of
 * the private generateToken are taken to return the same instant.
 */
module Jwt {
  import opened Wrappers
  import opened CompactJws

  /**
   * The HMAC-SHA512 signing key. `digest` stands for the SHA-512 digest of the passphrase;
   * the model treats that digest as collision-free, so distinct passphrases give distinct keys.
   */
  datatype SigningKey = SigningKey(digest: string)

  function GenerateSecretKey(passphrase: string): SigningKey {
    SigningKey(passphrase)
  }

  /**
   * The MAC over a signing input. It stands for HMAC-SHA512: the only property the model
   * relies on is that a signature made with one key never equals one made with another.
   */
  function Sign(key: SigningKey, signingInput: string): string {
    key.digest + "|" + signingInput
  }

  /** The registered claims the application sets: sub, iat and exp (in milliseconds). */
  datatype Claims = Claims(subject: string, issuedAtMs: int, expirationMs: int)

  /** Serialises and signs a token (Jwts.builder() ... signWith(key, HS512).compact()). */
  function Encode(key: SigningKey, c: Claims): string {
    Compact(c.subject, c.issuedAtMs, c.expirationMs, Sign(key, SigningInput(c.subject, c.issuedAtMs, c.expirationMs)))
  }

  /**
   * The format and signature check of parseClaimsJws: the claims a token carries when it is
   * well formed and signed with `key`. None stands for the MalformedJwtException or
   * SignatureException the library throws.
   */
  function VerifySignature(key: SigningKey, token: string): Option<Claims> {
    match Split(token)
    case None => None
    case Some(p) =>
      if p.signature == Sign(key, p.signingInput) then Some(Claims(p.subject, p.issuedAtMs, p.expirationMs))
      else None
  }

  /**
   * Jwts.parser().setSigningKey(key).build().parseClaimsJws(token).getBody() at instant `nowMs`.
   * After the signature check the library refuses a token whose expiry lies strictly before
   * now (ExpiredJwtException, a JwtException); None stands for any of these exceptions.
   */
  function ParseClaimsJws(key: SigningKey, token: string, nowMs: int): (r: Option<Claims>)
    ensures r.Some? <==> VerifySignature(key, token).Some? && nowMs <= VerifySignature(key, token).value.expirationMs
    ensures r.Some? ==> r == VerifySignature(key, token)
  {
    match VerifySignature(key, token)
    case None => None
    case Some(c) => if c.expirationMs < nowMs then None else Some(c)
  }

  /**
   * A token signed with a key carries, under that key, the claims it was built from; it
   * parses to them up to and including its expiry instant and is refused afterwards.
   */
  lemma ParseEncode(key: SigningKey, c: Claims, nowMs: int)
    ensures VerifySignature(key, Encode(key, c)) == Some(c)
    ensures nowMs <= c.expirationMs ==> ParseClaimsJws(key, Encode(key, c), nowMs) == Some(c)
    ensures c.expirationMs < nowMs ==> ParseClaimsJws(key, Encode(key, c), nowMs) == None
  {
    SplitCompact(c.subject, c.issuedAtMs, c.expirationMs, Sign(key, SigningInput(c.subject, c.issuedAtMs, c.expirationMs)));
  }

  /** A token signed with one key is refused under any other key. */
  lemma WrongKeyRejected(signer: SigningKey, verifier: SigningKey, c: Claims)
    requires signer != verifier
    ensures VerifySignature(verifier, Encode(signer, c)) == None
  {
    var input := SigningInput(c.subject, c.issuedAtMs, c.expirationMs);
    SplitCompact(c.subject, c.issuedAtMs, c.expirationMs, Sign(signer, input));
    var s1, s2 := Sign(signer, input), Sign(verifier, input);
    if |signer.digest| == |verifier.digest| {
      assert s1[..|signer.digest|] == signer.digest;
      assert s2[..|verifier.digest|] == verifier.digest;
    }
    assert s1 != s2;
  }

  /** Claims carried with any signature but the right one are refused. */
  lemma TamperedSignatureRejected(key: SigningKey, c: Claims, signature: string)
    requires signature != Sign(key, SigningInput(c.subject, c.issuedAtMs, c.expirationMs))
    ensures VerifySignature(key, Compact(c.subject, c.issuedAtMs, c.expirationMs, signature)) == None
  {
    SplitCompact(c.subject, c.issuedAtMs, c.expirationMs, signature);
  }

  /** JwtUtil: two lifetimes in seconds and the key derived from the configured passphrase. */
  datatype JwtUtil = JwtUtil(jwtExpirationTimeInSec: int, refreshExpirationTimeInSec: int, jwtSecretKey: SigningKey)
  {
    /** The claims a token carries under this key, whatever the time: what the issuer put in it. */
    function ReadClaims(token: string): Option<Claims> {
      VerifySignature(jwtSecretKey, token)
    }

    /** The private generateToken: subject, issued now, expiring ttl seconds later. */
    function GenerateTokenWithTtl(username: string, expirationTimeSec: int, nowMs: int): (token: string)
      ensures ReadClaims(token) == Some(Claims(username, nowMs, nowMs + expirationTimeSec * 1000))
    {
      var c := Claims(username, nowMs, nowMs + expirationTimeSec * 1000);
      ParseEncode(jwtSecretKey, c, nowMs);
      Encode(jwtSecretKey, c)
    }

    /** An access token: its lifetime is jwtExpirationTimeInSec. */
    function GenerateToken(username: string, nowMs: int): (token: string)
      ensures ReadClaims(token) == Some(Claims(username, nowMs, nowMs + jwtExpirationTimeInSec * 1000))
    {
      GenerateTokenWithTtl(username, jwtExpirationTimeInSec, nowMs)
    }

    /** A refresh token: its lifetime is refreshExpirationTimeInSec. */
    function GenerateRefreshToken(username: string, nowMs: int): (token: string)
      ensures ReadClaims(token) == Some(Claims(username, nowMs, nowMs + refreshExpirationTimeInSec * 1000))
    {
      GenerateTokenWithTtl(username, refreshExpirationTimeInSec, nowMs)
    }

    /** The private extractAllClaims at `nowMs`; None is the JwtException the parse throws. */
    function ExtractAllClaims(token: string, nowMs: int): Option<Claims> {
      ParseClaimsJws(jwtSecretKey, token, nowMs)
    }

    /** The subject of a readable, unexpired token; None is the parse exception. */
    function ExtractUsername(token: string, nowMs: int): (r: Option<string>)
      ensures r.Some? <==> ReadClaims(token).Some? && nowMs <= ReadClaims(token).value.expirationMs
      ensures r.Some? ==> r.value == ReadClaims(token).value.subject
    {
      match ExtractAllClaims(token, nowMs)
      case None => None
      case Some(c) => Some(c.subject)
    }

    /** The expiry of a readable, unexpired token; None is the parse exception. */
    function ExtractExpiration(token: string, nowMs: int): (r: Option<int>)
      ensures r.Some? <==> ReadClaims(token).Some? && nowMs <= ReadClaims(token).value.expirationMs
      ensures r.Some? ==> r.value == ReadClaims(token).value.expirationMs
    {
      match ExtractAllClaims(token, nowMs)
      case None => None
      case Some(c) => Some(c.expirationMs)
    }

    /**
     * isTokenExpired: the expiry is read through the parse, which already refuses an expired
     * token, so the comparison with now never finds it expired: the answer is false for a
     * readable unexpired token and the parse exception (None) for every other token.
     */
    function IsTokenExpired(token: string, nowMs: int): (r: Option<bool>)
      ensures r.Some? <==> ReadClaims(token).Some? && nowMs <= ReadClaims(token).value.expirationMs
      ensures r != Some(true)
    {
      match ExtractExpiration(token, nowMs)
      case None => None
      case Some(exp) => Some(exp < nowMs)
    }

    /**
     * isTokenValid: the parse exception (None) for an unreadable or expired token; otherwise
     * true iff the subject is the user's name.
     */
    function IsTokenValid(token: string, expectedUsername: string, nowMs: int): (r: Option<bool>)
      ensures r.Some? <==> ReadClaims(token).Some? && nowMs <= ReadClaims(token).value.expirationMs
      ensures r.Some? ==> (r.value <==> ReadClaims(token).value.subject == expectedUsername)
    {
      match ExtractUsername(token, nowMs)
      case None => None
      case Some(username) =>
        if username != expectedUsername then Some(false)
        else
          match IsTokenExpired(token, nowMs)
          case None => None
          case Some(expired) => Some(!expired)
    }
  }

  /** The constructor: the key is derived from the configured passphrase. */
  function NewJwtUtil(jwtExpirationTimeInSec: int, refreshExpirationTimeInSec: int, passphrase: string): (u: JwtUtil)
    ensures u.jwtExpirationTimeInSec == jwtExpirationTimeInSec
    ensures u.refreshExpirationTimeInSec == refreshExpirationTimeInSec
    ensures u.jwtSecretKey == GenerateSecretKey(passphrase)
  {
    JwtUtil(jwtExpirationTimeInSec, refreshExpirationTimeInSec, GenerateSecretKey(passphrase))
  }

  /**
   * A token is valid for its subject at any instant up to and including its expiry instant;
   * from the next millisecond on, isTokenValid and isTokenExpired both throw the parse
   * exception instead of answering.
   */
  lemma {:induction false} TokenLifetime(u: JwtUtil, username: string, ttlSec: int, issuedMs: int, nowMs: int)
    ensures nowMs <= issuedMs + ttlSec * 1000 ==>
              u.IsTokenValid(u.GenerateTokenWithTtl(username, ttlSec, issuedMs), username, nowMs) == Some(true)
    ensures nowMs > issuedMs + ttlSec * 1000 ==>
              && u.IsTokenValid(u.GenerateTokenWithTtl(username, ttlSec, issuedMs), username, nowMs) == None
              && u.IsTokenExpired(u.GenerateTokenWithTtl(username, ttlSec, issuedMs), nowMs) == None
  {
  }

  /** Tokens issued by a JwtUtil built from one passphrase are refused by one built from another. */
  lemma {:induction false} PassphraseIsolation(jwtTtl: int, refreshTtl: int, issuer: string, verifier: string, username: string, nowMs: int)
    requires issuer != verifier
    ensures NewJwtUtil(jwtTtl, refreshTtl, verifier).ReadClaims(NewJwtUtil(jwtTtl, refreshTtl, issuer).GenerateToken(username, nowMs)) == None
    ensures NewJwtUtil(jwtTtl, refreshTtl, verifier).ReadClaims(NewJwtUtil(jwtTtl, refreshTtl, issuer).GenerateRefreshToken(username, nowMs)) == None
  {
    var c1 := Claims(username, nowMs, nowMs + jwtTtl * 1000);
    var c2 := Claims(username, nowMs, nowMs + refreshTtl * 1000);
    WrongKeyRejected(GenerateSecretKey(issuer), GenerateSecretKey(verifier), c1);
    WrongKeyRejected(GenerateSecretKey(issuer), GenerateSecretKey(verifier), c2);
  }
}
