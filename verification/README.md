# Account authentication and session handling of the `api` backend, in Dafny

This project models the authentication core of the Spring Boot `api` module:

- **`JwtTokenProvider`**: issues an HS512-signed JWT for a principal, validates a token against the current time, reads its subject back as an `Authentication`, and keeps the in-memory blacklist of revoked tokens.
- **`JwtTokenAuthenticationFilter`**: takes the token out of an `Authorization: Bearer …` header. It installs the token's subject as the request's principal when the token is present, is not blacklisted and validates.
- **`AccountController`**: the login, logout, clear (`/account/clear`), edit and role endpoints. Each one is a transition over the state (account table, blacklist, clock) and also gives an HTTP status and body.
- **`AccountService`**: lookups that throw when nothing is found, the save rule (hash the password, choose the role from the username), deletion, and `loadUserByUsername`.

The model is a functional state machine. `AccountController.State` is an immutable record of the account table, the blacklist and the clock in milliseconds. Each handler is a pure function that returns the response and the next state. `Session.Run` composes the handlers with clock ticks. It takes a `Session.Build`: `AsWritten` serves login and edit as the code has them, `Corrected` serves the corrected forms of the two findings below. Every whole-run property is proved for both.

JJWT and BCrypt are kept opaque. They are function values (`Crypto.JwtCodec`, `Crypto.PasswordEncoder`). What the model assumes of them is written as the ghost predicates `Crypto.JwtLaws` and `Crypto.BCryptLaws`, and only the lemmas that need these assumptions require them:
- an issued token is non-blank (not empty, not whitespace only) and verifies back to exactly its claims;
- only issued tokens verify;
- a password matches its own encoding.

Nothing is assumed about a password against the encoding of its encoding.

Points where the model is more exact than a first reading of the code suggests:

- **Expiry is stored in whole seconds.** JJWT stores NumericDate values as whole seconds (section 2 of RFC 7519 also allows fractional values). It keeps `Date.getTime() / 1000`, with Java's division truncating toward zero, and gives back seconds × 1000 when the token is parsed. So the expiry that validation sees is `now + jwtExpirationMs` truncated to a second (`TokenProvider.IssuedClaims`). This has three consequences, all proved:
  - a lifetime of at least 1000 ms makes a token valid when it is issued;
  - a lifetime of −1000 ms or less makes a token never valid;
  - 100 ms issued at 1500 ms is already expired at birth.
  
  It also means that, when the configured lifetime is a non-negative whole number of seconds, two logins of one user within the same second get the same token string (`TokenProvider.SameSecondSameToken`). With other lifetimes the two expiries can fall in different seconds.
- **Expiry is checked twice.** `parseClaimsJws` itself rejects an expiry before now. The explicit test in `validateToken` repeats the same comparison, so an expiry equal to now is valid.
- **The filter's exception path never happens.** The filter calls `getAuthentication`, which parses the token again. With one clock reading per request it cannot throw after `validateToken` said true. The filter's `Abort` outcome stands for that exception, and `AuthFilter.DoFilterInternal` proves it never occurs.
- **No authorities.** Passing `null` authorities to `UsernamePasswordAuthenticationToken` gives an empty authority list. The filter's principal therefore carries no credentials and no authorities.
- **The empty username.** Spring's `User` constructor refuses an empty username. So `loadUserByUsername` throws for a stored row named `""`, the authentication manager fails, and a login with that name and its correct password ends in 500. The role endpoint takes the username as its whole request body, and Spring refuses an empty required body with 400 before the handler runs.
- **The account table.** `username` is a Hibernate natural id, hence unique, and ids come from an identity column. `Accounts.Valid` states this invariant and every transition preserves it. A save that would duplicate a username fails, and the controller turns that failure into 500. `findByUsername` is exact in a valid table.

Three behaviours of the code to keep in mind:
- an expiry equal to now is still valid;
- login with an unknown username gives 500, while a wrong password gives 401;
- logout without a usable header gives 500; it does not succeed quietly.

## Model

| member | source | states |
|---|---|---|
| `TokenProvider.IssuedClaims` | api/src/main/java/example/api/config/JwtTokenProvider.java:29-41 | the signed claims carry the principal's username as subject; the expiry read back is `now + jwtExpirationMs` truncated to a whole second (at most 999 ms earlier, or toward zero when negative) |
| `TokenProvider.GenerateToken` | api/src/main/java/example/api/config/JwtTokenProvider.java:26-47 | under JJWT's laws a returned token is non-blank and verifies to exactly the claims issued at now for the principal's username; `None` stands for the `null` of the catch |
| `TokenProvider.IssuedTokenRoundTrip` | api/src/main/java/example/api/config/JwtTokenProvider.java:26-60 | a token `generateToken` returned verifies to exactly the claims it was built from, is valid exactly while now is not after its expiry, and then `getAuthentication` yields its subject with no credentials and no authorities |
| `TokenProvider.ParseClaimsJws` | api/src/main/java/example/api/config/JwtTokenProvider.java:51-55 | parsing succeeds iff the token is non-blank, verifies under the key and its expiry is not before now, yielding the verified claims; otherwise `IllegalArgumentException` exactly for a blank string (empty, or only characters `Character.isWhitespace` accepts), a `JwtException` exactly for a token that does not verify, and `ExpiredJwtException` carrying the verified claims of an expired one |
| `TokenProvider.ValidateToken` | api/src/main/java/example/api/config/JwtTokenProvider.java:62-75 | true iff the token is non-blank, verifies under the key and its expiry is not before now (equality is valid); every parse failure yields false, never an exception |
| `TokenProvider.GetAuthentication` | api/src/main/java/example/api/config/JwtTokenProvider.java:49-60 | succeeds exactly when `validateToken` holds, with the token's subject as principal, no credentials and no authorities |
| `TokenProvider.InvalidateToken` | api/src/main/java/example/api/config/JwtTokenProvider.java:78-86 | afterwards the token is blacklisted, no entry is lost, and every other string's membership is unchanged |
| `TokenProvider.RevocationsRemembered` | api/src/main/java/example/api/config/JwtTokenProvider.java:78-86 | after any sequence of `invalidateToken` calls, `isTokenBlacklisted` answers true exactly for the tokens blacklisted before and the tokens revoked |
| `TokenProvider.InvalidateIdempotent` | api/src/main/java/example/api/config/JwtTokenProvider.java:78-81 | revoking a token twice equals revoking it once |
| `TokenProvider.FreshTokenValid` | api/src/main/java/example/api/config/JwtTokenProvider.java:29-30 | with a lifetime of at least one second a token is valid at its issue instant |
| `TokenProvider.NegativeLifetimeNeverValid` | api/src/main/java/example/api/config/JwtTokenProvider.java:29-30 | with a lifetime of −1000 ms or less a token is invalid at every instant from its issue on |
| `TokenProvider.SubSecondLifetimeValidity` | api/src/main/java/example/api/config/JwtTokenProvider.java:29-30 | with a lifetime of 0 to 999 ms, a token is valid at its issue instant iff it is issued on a whole second or the lifetime reaches the next second; so 100 ms issued at 1500 ms is expired at birth |
| `TokenProvider.SameSecondSameToken` | api/src/main/java/example/api/config/JwtTokenProvider.java:29-43 | two tokens for one subject issued in the same second, under a whole-second lifetime, are the same string |
| `AuthFilter.ExtractToken` | api/src/main/java/example/api/config/JwtTokenAuthenticationFilter.java:34-43 | a token is returned iff the header is present and starts with the case-sensitive `"Bearer "`, and then the header is `"Bearer "` followed by it; otherwise null |
| `AuthFilter.ExtractTokenRoundTrip` | api/src/main/java/example/api/config/JwtTokenAuthenticationFilter.java:38-39 | the header `"Bearer " + t` yields `t` |
| `AuthFilter.DoFilterInternal` | api/src/main/java/example/api/config/JwtTokenAuthenticationFilter.java:22-32 | the chain always continues; the context changes only when the token was found, is not blacklisted and validates |
| `AuthFilter.BearerDecision` | api/src/main/java/example/api/config/JwtTokenAuthenticationFilter.java:24-31 | for `Bearer t` the subject of `t` is installed iff `t` is not revoked, non-blank, verifies and is not expired; otherwise the context is left untouched |
| `AuthFilter.NonBearerIgnored` | api/src/main/java/example/api/config/JwtTokenAuthenticationFilter.java:36-41 | a missing header or one without the prefix leaves the context untouched |
| `AuthFilter.BlacklistedNeverAuthenticates` | api/src/main/java/example/api/config/JwtTokenAuthenticationFilter.java:26 | a blacklisted token never authenticates, even a valid one: the blacklist test comes first |
| `Accounts.ScanUsername` | api/src/main/java/example/api/repository/AccountRepository.java:9 | the scan returns an id whose row has the username, or None only when no id below `nextId` has it |
| `Accounts.FindByUsername` | api/src/main/java/example/api/repository/AccountRepository.java:9 | a returned account is a stored row with that username |
| `Accounts.FindByUsernameExact` | api/src/main/java/example/api/repository/AccountRepository.java:9 | in a valid table the lookup is null iff no row has the username, and a found row sits under its own id |
| `Accounts.Save` | api/src/main/java/example/api/service/AccountService.java:67 | the repository save fails iff another row has the username; otherwise the row is written under the form's existing id or a fresh one, and nothing else changes |
| `Accounts.SaveKeepsValid` | api/src/main/java/example/api/model/Account.java:14-18 | a successful save keeps ids in place and usernames unique |
| `AccountService.GetAccountById` | api/src/main/java/example/api/service/AccountService.java:33 | the Optional is present iff the id is in the table, holding that row |
| `AccountService.GetAccountByUsername` | api/src/main/java/example/api/service/AccountService.java:39-47 | returns a stored row with the username, or throws `AccountNotFoundException`, which in a valid table happens iff no row has it |
| `AccountService.AssignedRole` | api/src/main/java/example/api/service/AccountService.java:61-65 | the role is ADMIN iff the username contains `"admin"`; the `"administrator"` test is subsumed |
| `AccountService.SaveAccount` | api/src/main/java/example/api/service/AccountService.java:53-74 | stores the BCrypt encoding of the supplied password and exactly one role (ADMIN iff the name contains `"admin"`) with the form's username and email; fails only on a duplicate username |
| `AccountService.LoadUserByUsername` | api/src/main/java/example/api/service/AccountService.java:81-99 | throws `UsernameNotFoundException` exactly when the lookup finds nothing; throws the `User` constructor's `IllegalArgumentException` when the found username is empty; otherwise the stored username, password hash and the role as authority |
| `AccountService.DeleteAccountById` | api/src/main/java/example/api/service/AccountService.java:49-51 | removes that id only; every other row stays as it was |
| `AccountService.DeleteAllAccounts` | api/src/main/java/example/api/service/AccountService.java:76-78 | the table is left empty |
| `AccountService.SavedAccountIsFound` | api/src/main/java/example/api/service/AccountService.java:53-74 | after a save, the table is still valid and both lookups find the saved row |
| `AccountService.DeleteKeepsValid` | api/src/main/java/example/api/service/AccountService.java:49-51 | deletion keeps the table valid, and a deleted id is no longer found |
| `AccountController.StripRolesText` | api/src/main/java/example/api/controller/AccountController.java:263-267 | stripping the brackets from the role set's text leaves the role's name |
| `AccountController.AuthenticationManager` | api/src/main/java/example/api/config/SecurityConfig.java:77-86 | authentication succeeds iff `loadUserByUsername` returns a user for the name and the password matches its hash, and then yields that user; any exception of the lookup is a failure |
| `AccountController.Login` | api/src/main/java/example/api/controller/AccountController.java:241-285 | unknown username: 500; known username with a non-matching password: 401 "Invalid username or password"; the empty username with a matching password: 500; otherwise 200 with a token for the stored username, the role without brackets, the email and the id; the state never changes |
| `AccountController.LoginStatus` | api/src/main/java/example/api/controller/AccountController.java:247-283 | in a valid table: 500 iff no row has the name or the name is empty and its hash matches; 401 iff its row's hash does not match; 200 iff the name is not empty and its hash matches |
| `AccountController.LoginRevealsUnknownUsers` | api/src/main/java/example/api/controller/AccountController.java:247-250 | an unknown username gets 500 while a wrong password gets 401 |
| `AccountController.LoginCorrected` | api/src/main/java/example/api/controller/AccountController.java:249-250 | an unknown username is refused with 401 "Invalid username or password"; otherwise it is the login above |
| `AccountController.LoginCorrectedHidesUnknownUsers` | api/src/main/java/example/api/controller/AccountController.java:249-250 | the corrected login answers an unknown username and a wrong password identically |
| `AccountController.Logout` | api/src/main/java/example/api/controller/AccountController.java:287-304 | with a header of at least seven characters, blacklists it minus its first seven, prefix unchecked, and returns 200; a missing or shorter header gives 500 and no change |
| `AccountController.DeleteAll` | api/src/main/java/example/api/controller/AccountController.java:153-181 | revokes the bearer token when the header has one, then leaves exactly one account: `admin`, hash of `"admin"`, `admin@email.com`, ADMIN; 200 |
| `AccountController.EditAccount` | api/src/main/java/example/api/controller/AccountController.java:201-222 | no id: 500; absent id: 404 and no change; username clash: 500; otherwise 200 and the row holds the encoding of the encoding of the submitted password |
| `AccountController.GetRole` | api/src/main/java/example/api/controller/AccountController.java:113-129 | an empty request body is refused with 400 before the handler runs; otherwise `{"role":"<ROLE>"}` with brackets stripped for a stored username, and an unknown one makes the handler throw (500); both error bodies are Spring's own error document |
| `AccountController.RoleOfSavedAccount` | api/src/main/java/example/api/controller/AccountController.java:114-119 | after a save into a valid table, the role endpoint answers `{"role":"ADMIN"}` for the saved username iff it contains `"admin"`, and `{"role":"USER"}` otherwise; the empty username gets 400 |
| `AccountController.EditStoresRow` | api/src/main/java/example/api/controller/AccountController.java:207-209 | a non-clashing edit of a present id saves the edited row, which the username lookup then finds |
| `AccountController.EditedPasswordRejected` | api/src/main/java/example/api/controller/AccountController.java:207-209 | for every encoder obeying the BCrypt laws under which the submitted password does not match the hash of its hash: after an edit, the first hash logs in (200, or 500 for the empty username) and the submitted password gets 401 |
| `AccountController.EditAccountCorrected` | api/src/main/java/example/api/controller/AccountController.java:201-222 | as the edit above, but the row holds a single encoding of the submitted password |
| `AccountController.EditedPasswordAccepted` | api/src/main/java/example/api/controller/AccountController.java:207-209 | after the corrected edit, the new username and password log in for every encoder obeying the BCrypt laws (200, or 500 for the empty username) |
| `JavaStrings.NatToStringRoundTrip` | api/src/main/java/example/api/controller/AccountController.java:276 | the id's decimal text in the login body reads back as the id |
| `Session.Handle` | api/src/main/java/example/api/controller/AccountController.java:113-304 | no request removes a blacklist entry or moves the clock; login and the role lookup change nothing; logout leaves the table alone and edit the blacklist |
| `Session.Step` | api/src/main/java/example/api/config/JwtTokenProvider.java:21 | no request removes a blacklist entry; the clock moves only by ticks, which the model takes to be forward |
| `Session.Run` | api/src/main/java/example/api/config/JwtTokenProvider.java:78-81 | across any run of requests and ticks the blacklist only grows; the clock only advances, because ticks are forward by assumption |
| `Session.StepKeepsValid` | api/src/main/java/example/api/controller/AccountController.java:164-168 | every request keeps the account table valid |
| `Session.RunKeepsValid` | api/src/main/java/example/api/service/AccountService.java:53-78 | every run keeps the account table valid |
| `Session.RevokedStaysRejected` | api/src/main/java/example/api/config/JwtTokenAuthenticationFilter.java:26 | once blacklisted, a token never authenticates again, whatever follows |
| `Session.ExpiredStaysRejected` | api/src/main/java/example/api/config/JwtTokenProvider.java:70 | once past its expiry, a token never authenticates again, on a clock that only moves forward |
| `Session.LogoutRevokesForGood` | api/src/main/java/example/api/controller/AccountController.java:291-294 | after a successful logout, the same header never authenticates again |
| `Session.LogoutIdempotent` | api/src/main/java/example/api/controller/AccountController.java:291-294 | logging out twice with one header leaves the state of logging out once |
| `Session.LoginTokenAuthenticates` | api/src/main/java/example/api/controller/AccountController.java:260-279 | a successful login's body carries the issued token, and in every later state of any run where it is not blacklisted and its expiry is not passed, it authenticates the stored username |

## Left out

- JJWT signing (HS512) and BCrypt themselves: opaque function values constrained by `JwtLaws` and `BCryptLaws`, not cryptography. Salts are parameters of the requests that hash.
- `SecurityConfig.java` wiring: CORS, CSRF, stateless sessions, filter registration, key generation. The key is a fixed field of the provider's configuration.
- The student controllers, services and repositories in both modules: pass-throughs to Spring Data. The account repository appears only as the table operations the service uses.
- The endpoints outside the authentication core: `/account/list`, `/account/save`, `/account/delete/`, `/account/actual`, the OPTIONS handlers, `consoleFormat` and all logging.
- Concurrency: the blacklist is a plain `HashSet` shared by request threads. The model is sequential.
- Role-based authorization: the `@PreAuthorize` annotations are commented out, so no endpoint checks a role, and the model invents none.
- The security context installed during login (AccountController.java line 258): it belongs to that single stateless request and is discarded.
- Session.ExpiredStaysRejected: the model's clock only moves forward (`Tick` carries a natural number). `new Date()` reads the wall clock, which can be set back, and then `validateToken` accepts a token it rejected as expired before.
- The clock: one reading per request. The source reads `new Date()` several times while issuing and validating. Between `validateToken` and `getAuthentication` the clock could pass the expiry, and the filter would then throw. The model does not capture this.
- `null` fields in JSON request bodies: only the id may be missing. Usernames, passwords and emails are always strings.
- 64-bit overflow of `now + jwtExpirationMs`: it needs a clock near 2^63 ms.
- Role fields: `Account.java` shows a single `role` field while the service uses `getRoles`/`setRoles`/`getAuthorities`. The model stores one two-valued role. Its authority is the role's name.
- Database collation: usernames compare exactly.
- Merging a form whose id is absent from the table is modelled as an insert under a fresh id. Only `/account/save`, which is left out, can reach it.
- Java string lengths: `substring(7)` and `length()` count UTF-16 code units, Dafny strings count Unicode scalar values. They differ only on characters outside the Basic Multilingual Plane. Servlet containers decode header values as ISO-8859-1, so a header never holds such characters.
- Negative ids: `AccountForm.id` is a natural number, so an edit cannot carry a negative `Long` id. The source answers 404 for one, as for any other id not in the table.
- `AccountService.SaveAccount`: "never the plaintext" is stated as "the stored password is the encoder's output for the supplied password". Without an assumption about BCrypt's output format, that output cannot be shown to differ from every input.

## Findings

| source | as written | input that shows it | evidently intended | confidence | as-written member | corrected member |
|---|---|---|---|---|---|---|
| api/src/main/java/example/api/controller/AccountController.java:247-250 | `getAccountByUsername` throws for an unknown name, so the `existingAccount == null` branch is dead and the generic catch answers 500 | login as any username no row has, next to a known username with a wrong password: 500 versus 401 | unknown usernames refused with 401 like a wrong password, as the null test shows, so that usernames cannot be probed | high (not executed) | `AccountController.LoginRevealsUnknownUsers` | `AccountController.LoginCorrected` |
| api/src/main/java/example/api/controller/AccountController.java:207-209 | the edit hashes the submitted password and `saveAccount` hashes it again | edit an existing account with password `p`, then log in with `p`: 401 under any encoder where `p` does not match the hash of its hash (BCrypt; `ToyEncoderDoubleHashMismatch` shows `ToyEncoder` is one) | the submitted password stored with a single hash, so that it logs in afterwards | high (not executed) | `AccountController.EditedPasswordRejected` | `AccountController.EditAccountCorrected` |

The corrected members' properties are proved by `AccountController.LoginCorrectedHidesUnknownUsers` and `AccountController.EditedPasswordAccepted`.
