/**
 * The two cryptographic libraries the authentication code calls, kept opaque.
 *
 * JJWT (HS512 signing and parsing) and Spring's `BCryptPasswordEncoder` are
 * function values; what the model relies on about them is written down as the
 * ghost predicates `JwtLaws` and `BCryptLaws`, which lemmas take as
 * preconditions. Nothing here models the cryptography itself.
 */
module Crypto {
  import opened Base
  import opened JavaStrings

  /** The process-wide HS512 key, created once at start-up. */
  datatype SecretKey = SecretKey(bytes: seq<bv8>)

  /**
   * The claim set of an issued token. JJWT stores the NumericDate values of
   * `setIssuedAt` and `setExpiration` as whole seconds since the epoch
   * (section 2 of RFC 7519 also allows fractional values).
   */
  datatype Claims = Claims(subject: string, issuedAt: int, expiration: int)

  /**
   * JJWT under a key: `sign` is `Jwts.builder()...signWith(key).compact()`
   * (`None` when building throws); `verify` is the structural and signature
   * part of `parseClaimsJws` (`None` for a malformed, unsigned or badly signed
   * string). The expiry test JJWT also performs is modelled separately.
   */
  datatype JwtCodec = JwtCodec(
    sign: (SecretKey, Claims) -> Option<string>,
    verify: (SecretKey, string) -> Option<Claims>)

  /**
   * What the model assumes of JJWT: an issued token is a non-blank string
   * that parses back to exactly its claims under the same key, and the only
   * strings that parse under a key are the tokens issued under it, so a
   * tampered or foreign string fails.
   */
  ghost predicate JwtLaws(codec: JwtCodec) {
    && (forall k, c :: codec.sign(k, c).Some? ==>
          !Blank(codec.sign(k, c).value) && codec.verify(k, codec.sign(k, c).value) == Some(c))
    && (forall k, t :: codec.verify(k, t).Some? ==> codec.sign(k, codec.verify(k, t).value) == Some(t))
  }

  /** The 16 random bytes BCrypt draws from `SecureRandom` for each encoding. */
  type Salt = seq<bv8>

  /** `BCryptPasswordEncoder(10, new SecureRandom())`: `encode` with the salt drawn, and `matches`. */
  datatype PasswordEncoder = PasswordEncoder(
    encode: (Salt, string) -> string,
    matches: (string, string) -> bool)

  /**
   * What the model assumes of BCrypt: a password matches its own encoding,
   * whatever salt was drawn. Nothing is assumed about a password against the
   * encoding of its encoding.
   */
  ghost predicate BCryptLaws(encoder: PasswordEncoder) {
    forall salt, p :: encoder.matches(p, encoder.encode(salt, p))
  }

  /**
   * The NumericDate JJWT stores for a `java.util.Date`: `getTime() / 1000`,
   * where Java's long division truncates toward zero.
   */
  function ToNumericDate(ms: int): (seconds: int)
    ensures ms >= 0 ==> 0 <= ms - seconds * 1000 < 1000
    ensures ms < 0 ==> 0 <= seconds * 1000 - ms < 1000
  {
    if ms >= 0 then ms / 1000 else -((-ms) / 1000)
  }

  /** The `java.util.Date` (in milliseconds) JJWT returns for a NumericDate claim. */
  function FromNumericDate(seconds: int): int {
    seconds * 1000
  }
}
