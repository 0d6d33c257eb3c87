/**
 * The authentication endpoints and the passage of time composed into one
 * sequential state machine, with the properties that hold across whole runs:
 * the blacklist and the clock only grow, the table stays valid, and a
 * revoked or expired token never authenticates again.
 */
module Session {
  import opened Base
  import opened JavaStrings
  import opened Crypto
  import opened TokenProvider
  import opened AuthFilter
  import opened Accounts
  import opened AccountService
  import opened AccountController

  /**
   * A request to one of the modelled endpoints, with the salts BCrypt draws
   * while serving it: an edit draws one in the controller (`editSalt`) and
   * one in `saveAccount` (`saveSalt`).
   */
  datatype Request =
    | LoginRequest(form: AccountForm)
    | LogoutRequest(header: Option<string>)
    | ClearRequest(header: Option<string>, salt: Salt)
    | EditRequest(form: AccountForm, editSalt: Salt, saveSalt: Salt)
    | RoleRequest(username: string)

  /** A request served, or the clock moving forward by some milliseconds. */
  datatype Event = Serve(request: Request) | Tick(ms: nat)

  /**
   * Which login and edit handlers serve requests: the code as written, or
   * the corrected forms of the two findings. Every whole-run property below
   * holds for both.
   */
  datatype Build = AsWritten | Corrected

  /**
   * Serves one request. Only logout and clear touch the blacklist, and only
   * by adding to it; login and the role lookup change nothing; logout leaves
   * the table alone, and edit the blacklist; no request moves the clock.
   */
  function Handle(env: Env, build: Build, s: State, request: Request): (r: Outcome)
    ensures s.blacklist <= r.state.blacklist && r.state.now == s.now
    ensures request.LoginRequest? || request.RoleRequest? ==> r.state == s
    ensures request.LogoutRequest? ==> r.state.store == s.store
    ensures request.EditRequest? ==> r.state.blacklist == s.blacklist
  {
    match request
    case LoginRequest(form) =>
      if build == AsWritten then Login(env, s, form) else LoginCorrected(env, s, form)
    case LogoutRequest(header) => Logout(s, header)
    case ClearRequest(header, salt) => DeleteAll(env, s, header, salt)
    case EditRequest(form, editSalt, saveSalt) =>
      if build == AsWritten then EditAccount(env, s, form, editSalt, saveSalt)
      else EditAccountCorrected(env, s, form, saveSalt)
    case RoleRequest(username) => GetRole(s, username)
  }

  /** One event: nothing removes a blacklist entry and the clock never goes back. */
  function Step(env: Env, build: Build, s: State, event: Event): (r: State)
    ensures s.blacklist <= r.blacklist
    ensures s.now <= r.now
  {
    match event
    case Tick(ms) => s.(now := s.now + ms)
    case Serve(request) => Handle(env, build, s, request).state
  }

  /** The state after a sequence of events, which keeps the blacklist and clock monotone. */
  function Run(env: Env, build: Build, s: State, events: seq<Event>): (r: State)
    ensures s.blacklist <= r.blacklist
    ensures s.now <= r.now
    decreases |events|
  {
    if |events| == 0 then s else Run(env, build, Step(env, build, s, events[0]), events[1..])
  }

  /** Whether the filter, run in state `s`, installs a principal for `header`. */
  predicate Authenticated(env: Env, s: State, header: Option<string>) {
    DoFilterInternal(env.provider, s.blacklist, s.now, header, None) != Proceed(None)
  }

  /** Every request keeps the account table valid. */
  lemma StepKeepsValid(env: Env, build: Build, s: State, event: Event)
    requires Valid(s.store)
    ensures Valid(Step(env, build, s, event).store)
  {
    match event
    case Tick(_) =>
    case Serve(request) =>
      match request
      case EditRequest(form, editSalt, saveSalt) =>
        if form.id.Some? && form.id.value in s.store.rows && !UsernameTaken(s, form.id.value, form.username) {
          if build == AsWritten {
            SavedAccountIsFound(s.store, form.(password := env.encoder.encode(editSalt, form.password)), saveSalt, env.encoder);
          } else {
            SavedAccountIsFound(s.store, form, saveSalt, env.encoder);
          }
        }
      case ClearRequest(header, salt) =>
        var cleared := DeleteAllAccounts(s.store);
        assert SaveAccount(cleared, GenericAdmin, salt, env.encoder).Success?;
        SavedAccountIsFound(cleared, GenericAdmin, salt, env.encoder);
      case _ =>
  }

  /** Every run keeps the account table valid: ids in place, usernames unique. */
  lemma {:induction false} RunKeepsValid(env: Env, build: Build, s: State, events: seq<Event>)
    requires Valid(s.store)
    ensures Valid(Run(env, build, s, events).store)
    decreases |events|
  {
    if |events| > 0 {
      StepKeepsValid(env, build, s, events[0]);
      RunKeepsValid(env, build, Step(env, build, s, events[0]), events[1..]);
    }
  }

  /** Revoked is final: once blacklisted, a token never authenticates again, whatever happens next. */
  lemma RevokedStaysRejected(env: Env, build: Build, s: State, events: seq<Event>, header: Option<string>)
    requires ExtractToken(header).Some? && ExtractToken(header).value in s.blacklist
    ensures !Authenticated(env, Run(env, build, s, events), header)
  {
    var later := Run(env, build, s, events);
    BlacklistedNeverAuthenticates(env.provider, later.blacklist, later.now, header, None);
  }

  /** Expired is final: the clock only advances, so a token past its expiry never authenticates again. */
  lemma ExpiredStaysRejected(env: Env, build: Build, s: State, events: seq<Event>, token: string)
    requires env.provider.codec.verify(env.provider.key, token).Some?
    requires ExpiryMs(env.provider.codec.verify(env.provider.key, token).value) < s.now
    ensures !Authenticated(env, Run(env, build, s, events), Some(BearerPrefix + token))
  {
    var later := Run(env, build, s, events);
    BearerDecision(env.provider, later.blacklist, later.now, token, None);
  }

  /**
   * A logout that succeeds revokes the header's token for good: the same
   * header never authenticates afterwards, whether or not it had the
   * `"Bearer "` prefix the logout never checked.
   */
  lemma LogoutRevokesForGood(env: Env, build: Build, s: State, header: Option<string>, events: seq<Event>)
    requires Handle(env, build, s, LogoutRequest(header)).response.status == 200
    ensures !Authenticated(env, Run(env, build, Handle(env, build, s, LogoutRequest(header)).state, events), header)
  {
    var after := Handle(env, build, s, LogoutRequest(header)).state;
    var later := Run(env, build, after, events);
    if ExtractToken(header).Some? {
      assert ExtractToken(header).value == header.value[7..];
      RevokedStaysRejected(env, build, after, events, header);
    } else {
      NonBearerIgnored(env.provider, later.blacklist, later.now, header, None);
    }
  }

  /** Logging out twice with one header leaves the same state as logging out once. */
  lemma LogoutIdempotent(env: Env, build: Build, s: State, header: Option<string>)
    ensures var once := Handle(env, build, s, LogoutRequest(header)).state;
            Handle(env, build, once, LogoutRequest(header)).state == once
  {
  }

  /**
   * The token a successful login returns is in its body, and it
   * authenticates the stored username in every later state of any run that
   * has not revoked it and has not passed its expiry.
   */
  lemma LoginTokenAuthenticates(env: Env, build: Build, s: State, form: AccountForm, token: string, events: seq<Event>)
    requires JwtLaws(env.provider.codec)
    requires Handle(env, build, s, LoginRequest(form)).response.status == 200
    requires GenerateToken(env.provider, form.username, s.now) == Some(token)
    ensures exists role, email, id :: Handle(env, build, s, LoginRequest(form)).response.body == Text(LoginJson(token, role, email, id))
    ensures var later := Run(env, build, Handle(env, build, s, LoginRequest(form)).state, events);
            token !in later.blacklist && later.now <= ExpiryMs(IssuedClaims(env.provider, form.username, s.now)) ==>
            DoFilterInternal(env.provider, later.blacklist, later.now, Some(BearerPrefix + token), None) ==
            Proceed(Some(Authentication(form.username, None, {})))
  {
    var account := GetAccountByUsername(s.store, form.username).value;
    assert Handle(env, build, s, LoginRequest(form)).response.body ==
           Text(LoginJson(token, RoleName(account.role), account.email, NatToString(account.id)));
    var later := Run(env, build, Handle(env, build, s, LoginRequest(form)).state, events);
    IssuedTokenRoundTrip(env.provider, form.username, s.now, token, later.now);
    BearerDecision(env.provider, later.blacklist, later.now, token, None);
  }
}
