/**
 * `JwtTokenProvider`: issues signed tokens for a principal, validates them
 * against the current time, reads the principal back out of them, and keeps
 * the in-memory blacklist of revoked tokens.
 */
module TokenProvider {
  import opened Base
  import opened JavaStrings
  import opened Crypto

  /** Java `int`, the type of the `app.jwtExpirationMs` setting. */
  type Int32 = x: int | -0x8000_0000 <= x < 0x8000_0000

  /** The provider's fixed configuration: the signing key, the configured lifetime, and JJWT. */
  datatype ProviderConfig = ProviderConfig(key: SecretKey, jwtExpirationMs: Int32, codec: JwtCodec)

  /** The `blacklistedTokens` set. Nothing ever removes an entry. */
  type Blacklist = set<string>

  /** A `UsernamePasswordAuthenticationToken` as the provider builds it. */
  datatype Authentication = Authentication(principal: string, credentials: Option<string>, authorities: set<string>)

  /**
   * Why `parseClaimsJws` throws: `IllegalArgumentException` for a blank
   * string (empty or whitespace only), a `JwtException` for a string that does not verify, and
   * `ExpiredJwtException` for a verified token whose expiry is before now.
   */
  datatype JwtError = BlankToken | InvalidJwt | ExpiredJwt(claims: Claims)

  /** The expiry, in milliseconds, that `getExpiration()` returns for a claim set. */
  function ExpiryMs(c: Claims): int {
    FromNumericDate(c.expiration)
  }

  /**
   * The claims `generateToken` signs at time `now` (milliseconds): the
   * subject, and the issue and expiry instants as NumericDates. The expiry
   * read back is `now + jwtExpirationMs` truncated to a whole second.
   */
  function IssuedClaims(cfg: ProviderConfig, subject: string, now: int): (c: Claims)
    ensures c.subject == subject
    ensures now + cfg.jwtExpirationMs >= 0 ==>
              ExpiryMs(c) <= now + cfg.jwtExpirationMs < ExpiryMs(c) + 1000
    ensures now + cfg.jwtExpirationMs < 0 ==>
              now + cfg.jwtExpirationMs <= ExpiryMs(c) < now + cfg.jwtExpirationMs + 1000
  {
    Claims(subject, ToNumericDate(now), ToNumericDate(now + cfg.jwtExpirationMs))
  }

  /**
   * `generateToken`: the signed token for `subject`, or `None` (Java `null`)
   * if building throws. Under JJWT's laws a returned token is non-blank and
   * verifies to exactly the claims issued at `now`.
   */
  function GenerateToken(cfg: ProviderConfig, subject: string, now: int): (r: Option<string>)
    ensures JwtLaws(cfg.codec) && r.Some? ==>
              !Blank(r.value) && cfg.codec.verify(cfg.key, r.value) == Some(IssuedClaims(cfg, subject, now))
  {
    cfg.codec.sign(cfg.key, IssuedClaims(cfg, subject, now))
  }

  /**
   * `parseClaimsJws(token).getBody()` under the provider's key at time `now`:
   * the verified claims of a non-blank, unexpired token; otherwise the
   * exception for the first check that fails.
   */
  function ParseClaimsJws(cfg: ProviderConfig, token: string, now: int): (r: Result<Claims, JwtError>)
    ensures r.Success? <==>
              && !Blank(token)
              && cfg.codec.verify(cfg.key, token).Some?
              && now <= ExpiryMs(cfg.codec.verify(cfg.key, token).value)
    ensures r.Success? ==> cfg.codec.verify(cfg.key, token) == Some(r.value)
    ensures r.Failure? ==> (r.error == BlankToken <==> Blank(token))
    ensures r.Failure? && !Blank(token) ==> (r.error == InvalidJwt <==> cfg.codec.verify(cfg.key, token).None?)
    ensures r.Failure? && r.error.ExpiredJwt? ==>
              cfg.codec.verify(cfg.key, token) == Some(r.error.claims) && ExpiryMs(r.error.claims) < now
  {
    if Blank(token) then Failure(BlankToken)
    else match cfg.codec.verify(cfg.key, token)
      case None => Failure(InvalidJwt)
      case Some(c) => if now > ExpiryMs(c) then Failure(ExpiredJwt(c)) else Success(c)
  }

  /**
   * `validateToken`: true exactly when the token is non-blank, verifies under
   * the key, and its expiry is not before `now` (an expiry equal to `now` is
   * still valid). Every parse failure becomes `false`; nothing is thrown.
   */
  function ValidateToken(cfg: ProviderConfig, token: string, now: int): (valid: bool)
    ensures valid <==>
              && !Blank(token)
              && cfg.codec.verify(cfg.key, token).Some?
              && now <= ExpiryMs(cfg.codec.verify(cfg.key, token).value)
  {
    match ParseClaimsJws(cfg, token, now)
    case Success(claims) => !(ExpiryMs(claims) < now)
    case Failure(_) => false
  }

  /**
   * `getAuthentication`: the token's subject as principal, with no
   * credentials and no authorities. It throws exactly where `validateToken`
   * says false.
   */
  function GetAuthentication(cfg: ProviderConfig, token: string, now: int): (r: Result<Authentication, JwtError>)
    ensures r.Success? <==> ValidateToken(cfg, token, now)
    ensures r.Success? ==>
              r.value == Authentication(cfg.codec.verify(cfg.key, token).value.subject, None, {})
  {
    match ParseClaimsJws(cfg, token, now)
    case Success(claims) => Success(Authentication(claims.subject, None, {}))
    case Failure(e) => Failure(e)
  }

  /** `invalidateToken`: adds the token; the membership of every other string is unchanged. */
  function InvalidateToken(blacklist: Blacklist, token: string): (r: Blacklist)
    ensures IsTokenBlacklisted(r, token)
    ensures blacklist <= r
    ensures forall other :: other != token ==> (other in r <==> other in blacklist)
  {
    blacklist + {token}
  }

  /** `isTokenBlacklisted`. */
  predicate IsTokenBlacklisted(blacklist: Blacklist, token: string) {
    token in blacklist
  }

  /** The blacklist after revoking each of `tokens` in turn. */
  function InvalidateAll(blacklist: Blacklist, tokens: seq<string>): Blacklist
    decreases |tokens|
  {
    if |tokens| == 0 then blacklist else InvalidateAll(InvalidateToken(blacklist, tokens[0]), tokens[1..])
  }

  /**
   * `isTokenBlacklisted` after any sequence of revocations answers true
   * exactly for the tokens blacklisted before and the tokens revoked.
   */
  lemma {:induction false} RevocationsRemembered(blacklist: Blacklist, tokens: seq<string>, t: string)
    ensures IsTokenBlacklisted(InvalidateAll(blacklist, tokens), t) <==> IsTokenBlacklisted(blacklist, t) || t in tokens
    decreases |tokens|
  {
    if |tokens| > 0 {
      RevocationsRemembered(InvalidateToken(blacklist, tokens[0]), tokens[1..], t);
      assert tokens == [tokens[0]] + tokens[1..];
    }
  }

  /** Revoking a token twice has the effect of revoking it once. */
  lemma InvalidateIdempotent(blacklist: Blacklist, token: string)
    ensures InvalidateToken(InvalidateToken(blacklist, token), token) == InvalidateToken(blacklist, token)
  {
  }

  /**
   * A token the provider issued verifies to the claims it was built from;
   * it is valid exactly up to and including its (second-truncated) expiry,
   * and while valid it authenticates its subject.
   */
  lemma IssuedTokenRoundTrip(cfg: ProviderConfig, subject: string, issuedAt: int, token: string, now: int)
    requires JwtLaws(cfg.codec)
    requires GenerateToken(cfg, subject, issuedAt) == Some(token)
    ensures cfg.codec.verify(cfg.key, token) == Some(IssuedClaims(cfg, subject, issuedAt))
    ensures ValidateToken(cfg, token, now) <==> now <= ExpiryMs(IssuedClaims(cfg, subject, issuedAt))
    ensures ValidateToken(cfg, token, now) ==>
              GetAuthentication(cfg, token, now) == Success(Authentication(subject, None, {}))
  {
    var c := IssuedClaims(cfg, subject, issuedAt);
    assert cfg.codec.sign(cfg.key, c) == Some(token);
  }

  /** With a lifetime of at least a second, a token is valid at the instant it is issued. */
  lemma FreshTokenValid(cfg: ProviderConfig, subject: string, now: int, token: string)
    requires JwtLaws(cfg.codec)
    requires cfg.jwtExpirationMs >= 1000
    requires GenerateToken(cfg, subject, now) == Some(token)
    ensures ValidateToken(cfg, token, now)
  {
    IssuedTokenRoundTrip(cfg, subject, now, token, now);
  }

  /** With a lifetime of minus one second or less, a token is never valid from its issue time on. */
  lemma NegativeLifetimeNeverValid(cfg: ProviderConfig, subject: string, issuedAt: int, token: string, now: int)
    requires JwtLaws(cfg.codec)
    requires cfg.jwtExpirationMs <= -1000
    requires GenerateToken(cfg, subject, issuedAt) == Some(token)
    requires issuedAt <= now
    ensures !ValidateToken(cfg, token, now)
  {
    IssuedTokenRoundTrip(cfg, subject, issuedAt, token, now);
  }

  /**
   * Truncation to seconds decides whether a token with less than a second of
   * lifetime is valid when issued: only if it is issued on a whole second,
   * or the lifetime reaches past the next one. So 100 ms issued at 1500 ms
   * is expired at birth.
   */
  lemma SubSecondLifetimeValidity(cfg: ProviderConfig, subject: string, now: nat, token: string)
    requires JwtLaws(cfg.codec)
    requires 0 <= cfg.jwtExpirationMs < 1000
    requires GenerateToken(cfg, subject, now) == Some(token)
    ensures ValidateToken(cfg, token, now) <==> now % 1000 == 0 || now % 1000 + cfg.jwtExpirationMs >= 1000
  {
    IssuedTokenRoundTrip(cfg, subject, now, token, now);
  }

  /**
   * Two logins of one user within the same second, under a lifetime that is
   * a whole number of seconds, receive the same token string.
   */
  lemma SameSecondSameToken(cfg: ProviderConfig, subject: string, now1: nat, now2: nat)
    requires now1 / 1000 == now2 / 1000
    requires cfg.jwtExpirationMs >= 0 && cfg.jwtExpirationMs % 1000 == 0
    ensures GenerateToken(cfg, subject, now1) == GenerateToken(cfg, subject, now2)
  {
    var ttl := cfg.jwtExpirationMs;
    assert (now1 + ttl) / 1000 == now1 / 1000 + ttl / 1000;
    assert (now2 + ttl) / 1000 == now2 / 1000 + ttl / 1000;
  }
}
