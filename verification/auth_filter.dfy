/**
 * `JwtTokenAuthenticationFilter`: runs on every request, takes the bearer
 * token from the `Authorization` header and, when the token is not revoked
 * and validates, installs its subject as the request's principal.
 */
module AuthFilter {
  import opened Base
  import opened JavaStrings
  import opened Crypto
  import opened TokenProvider

  /** The literal header prefix, case-sensitive, with one space. */
  const BearerPrefix: string := "Bearer "

  /** The security context of the request: the installed authentication, if any. */
  type SecurityContext = Option<Authentication>

  /** `extractToken`: the header minus its first seven characters when it starts with `"Bearer "`. */
  function ExtractToken(header: Option<string>): (token: Option<string>)
    ensures token.Some? <==> header.Some? && StartsWith(header.value, BearerPrefix)
    ensures token.Some? ==> header.value == BearerPrefix + token.value
  {
    if header.Some? && StartsWith(header.value, BearerPrefix) then Substring(header.value, 7) else None
  }

  lemma ExtractTokenRoundTrip(token: string)
    ensures ExtractToken(Some(BearerPrefix + token)) == Some(token)
  {
    assert (BearerPrefix + token)[..7] == BearerPrefix;
  }

  /**
   * What the filter hands on. `Abort` stands for an exception escaping the
   * filter (a `getAuthentication` that throws after `validateToken` said
   * true); the filter never produces it.
   */
  datatype FilterOutcome = Proceed(context: SecurityContext) | Abort(error: JwtError)

  /**
   * `doFilterInternal` at time `now`: installs the token's principal when
   * the token is present, not blacklisted (checked first) and valid, and
   * otherwise leaves the context as it was; either way the chain continues.
   */
  function DoFilterInternal(cfg: ProviderConfig, blacklist: Blacklist, now: int,
                            header: Option<string>, context: SecurityContext): (r: FilterOutcome)
    ensures r.Proceed?
    ensures r.context != context ==>
              && ExtractToken(header).Some?
              && !IsTokenBlacklisted(blacklist, ExtractToken(header).value)
              && ValidateToken(cfg, ExtractToken(header).value, now)
  {
    var token := ExtractToken(header);
    if token.Some? && !IsTokenBlacklisted(blacklist, token.value) && ValidateToken(cfg, token.value, now) then
      match GetAuthentication(cfg, token.value, now)
      case Success(authentication) => Proceed(Some(authentication))
      case Failure(e) => Abort(e)
    else
      Proceed(context)
  }

  /**
   * The filter's decision for a `Bearer` header, stated against JJWT
   * directly: the subject of a verified, unexpired, non-revoked token is
   * installed with no credentials and no authorities; any other token leaves
   * the context alone.
   */
  lemma BearerDecision(cfg: ProviderConfig, blacklist: Blacklist, now: int, token: string, context: SecurityContext)
    ensures DoFilterInternal(cfg, blacklist, now, Some(BearerPrefix + token), context) ==
            if && token !in blacklist
               && !Blank(token)
               && cfg.codec.verify(cfg.key, token).Some?
               && now <= ExpiryMs(cfg.codec.verify(cfg.key, token).value)
            then Proceed(Some(Authentication(cfg.codec.verify(cfg.key, token).value.subject, None, {})))
            else Proceed(context)
  {
    ExtractTokenRoundTrip(token);
  }

  /** A missing header, or one without the `"Bearer "` prefix, never authenticates. */
  lemma NonBearerIgnored(cfg: ProviderConfig, blacklist: Blacklist, now: int, header: Option<string>, context: SecurityContext)
    requires header.None? || !StartsWith(header.value, BearerPrefix)
    ensures DoFilterInternal(cfg, blacklist, now, header, context) == Proceed(context)
  {
  }

  /** Revocation takes precedence: a blacklisted token never authenticates, even one that validates. */
  lemma BlacklistedNeverAuthenticates(cfg: ProviderConfig, blacklist: Blacklist, now: int, header: Option<string>, context: SecurityContext)
    requires ExtractToken(header).Some? && ExtractToken(header).value in blacklist
    ensures DoFilterInternal(cfg, blacklist, now, header, context) == Proceed(context)
  {
  }
}
