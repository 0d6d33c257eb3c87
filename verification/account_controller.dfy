/**
 * The decisions of `AccountController`'s authentication endpoints, each a
 * transition over the state (account table, token blacklist, clock) that
 * also yields the HTTP response.
 */
module AccountController {
  import opened Base
  import opened JavaStrings
  import opened Crypto
  import opened TokenProvider
  import opened AuthFilter
  import opened Accounts
  import opened AccountService

  /** The collaborators fixed for the life of the process: the token provider and the BCrypt encoder. */
  datatype Env = Env(provider: ProviderConfig, encoder: PasswordEncoder)

  /** What requests act on: the account table, the blacklist, and the clock in milliseconds. */
  datatype State = State(store: AccountStore, blacklist: Blacklist, now: nat)

  /**
   * A response body: a string, a serialised account, none, or the error
   * document Spring writes itself when it refuses a request or the handler
   * throws.
   */
  datatype Body = Text(text: string) | Row(account: Account) | NoBody | FrameworkError

  datatype Response = Response(status: int, body: Body)

  /** A handled request: its response and the state after it. */
  datatype Outcome = Outcome(response: Response, state: State)

  const InvalidCredentialsText: string := "Invalid username or password"
  /** The 500 body of both login and logout. */
  const FailureText: string := "The logout method did not worked"
  const LogoutText: string := "{\"token\":\"The account has been disconnected and the token is no more valid\"}"
  const ClearText: string := "{\"Status\": \"200\", \"M\U{e9}thode\": \"Delete all accounts\"}"
  const ClearErrorText: string := "{\"Status\": \"Error\", \"M\U{e9}thode\": \"Delete all account\"}"

  /** `getRoles().toString()` of the single-role set `saveAccount` stores. */
  function RolesText(role: Role): string {
    "[" + RoleName(role) + "]"
  }

  /** `.replace("[", "").replace("]", "")`. */
  function StripBrackets(s: string): string {
    RemoveChar(RemoveChar(s, '['), ']')
  }

  /** Stripping removes exactly the enclosing brackets from a bracket-free name. */
  lemma StripEnclosed(name: string)
    requires '[' !in name && ']' !in name
    ensures StripBrackets("[" + name + "]") == name
  {
    var open := "[";
    var close := "]";
    assert RemoveChar(open, '[') == "";
    assert RemoveChar(close, '[') == close;
    assert RemoveChar(close, ']') == "";
    calc {
      RemoveChar(open + name + close, '[');
      { RemoveCharConcat(open + name, close, '['); }
      RemoveChar(open + name, '[') + RemoveChar(close, '[');
      { RemoveCharConcat(open, name, '['); }
      RemoveChar(open, '[') + RemoveChar(name, '[') + close;
      { assert RemoveChar(open, '[') + RemoveChar(name, '[') == name; }
      name + close;
    }
    calc {
      RemoveChar(name + close, ']');
      { RemoveCharConcat(name, close, ']'); }
      RemoveChar(name, ']') + RemoveChar(close, ']');
      { assert RemoveChar(name, ']') + "" == name; }
      name;
    }
  }

  lemma StripRolesText(role: Role)
    ensures StripBrackets(RolesText(role)) == RoleName(role)
  {
    StripEnclosed(RoleName(role));
  }

  /** Java string concatenation of a possibly-null token. */
  function TokenText(token: Option<string>): string {
    match token
    case Some(t) => t
    case None => "null"
  }

  /** The JSON text the login endpoint assembles. */
  function LoginJson(token: string, role: string, email: string, id: string): string {
    "{" + "\"token\":\"" + token + "\"," + "\"role\": \"" + role + "\"," + "\"email\":\"" + email + "\"," + "\"id\":\"" + id + "\"" + "}"
  }

  datatype AuthError = BadCredentials

  /**
   * `authenticationManager.authenticate` as configured: a
   * `DaoAuthenticationProvider` over `loadUserByUsername` and the same BCrypt
   * `matches`, yielding the loaded user as principal. It succeeds exactly
   * when the user loads and the password matches its hash; every exception
   * of the lookup ends in a failure.
   */
  function AuthenticationManager(env: Env, store: AccountStore, username: string, password: string): (r: Result<UserDetails, AuthError>)
    ensures r.Success? <==>
              LoadUserByUsername(store, username).Success? &&
              env.encoder.matches(password, LoadUserByUsername(store, username).value.password)
    ensures r.Success? ==> LoadUserByUsername(store, username) == Success(r.value)
  {
    match LoadUserByUsername(store, username)
    case Failure(_) => Failure(BadCredentials)
    case Success(user) => if env.encoder.matches(password, user.password) then Success(user) else Failure(BadCredentials)
  }

  /**
   * `login`: an unknown username ends in 500 (the lookup throws); a known one
   * with a non-matching password gets 401; a matching password for the empty
   * username ends in 500 too (the authentication manager cannot build its
   * user); otherwise 200 with a token for the stored username, the role
   * without brackets, the email and the id. No outcome changes the state.
   */
  function Login(env: Env, s: State, form: AccountForm): (r: Outcome)
    ensures r.state == s
    ensures GetAccountByUsername(s.store, form.username).Failure? ==>
              r.response == Response(500, Text(FailureText))
    ensures GetAccountByUsername(s.store, form.username).Success? ==>
              var account := GetAccountByUsername(s.store, form.username).value;
              && (!env.encoder.matches(form.password, account.password) ==>
                    r.response == Response(401, Text(InvalidCredentialsText)))
              && (env.encoder.matches(form.password, account.password) && form.username == "" ==>
                    r.response == Response(500, Text(FailureText)))
              && (env.encoder.matches(form.password, account.password) && form.username != "" ==>
                    r.response == Response(200, Text(LoginJson(
                      TokenText(GenerateToken(env.provider, account.username, s.now)),
                      RoleName(account.role), account.email, NatToString(account.id)))))
  {
    match GetAccountByUsername(s.store, form.username)
    case Failure(_) => Outcome(Response(500, Text(FailureText)), s)
    case Success(existing) =>
      if !env.encoder.matches(form.password, existing.password) then
        Outcome(Response(401, Text(InvalidCredentialsText)), s)
      else
        match AuthenticationManager(env, s.store, form.username, form.password)
        case Failure(_) => Outcome(Response(500, Text(FailureText)), s)
        case Success(user) =>
          var token := GenerateToken(env.provider, user.username, s.now);
          var role := StripBrackets(RolesText(existing.role));
          StripRolesText(existing.role);
          Outcome(Response(200, Text(LoginJson(TokenText(token), role, existing.email, NatToString(existing.id)))), s)
  }

  /**
   * `logout`: blacklists the header minus its first seven characters, with
   * no check of the `"Bearer "` prefix. A missing header or one shorter than
   * seven characters throws, giving 500 and no change.
   */
  function Logout(s: State, header: Option<string>): (r: Outcome)
    ensures r.state.store == s.store && r.state.now == s.now
    ensures header.None? || |header.value| < 7 ==> r == Outcome(Response(500, Text(FailureText)), s)
    ensures header.Some? && |header.value| >= 7 ==>
              && r.response == Response(200, Text(LogoutText))
              && r.state.blacklist == InvalidateToken(s.blacklist, header.value[7..])
  {
    if header.None? then Outcome(Response(500, Text(FailureText)), s)
    else match Substring(header.value, 7)
      case None => Outcome(Response(500, Text(FailureText)), s)
      case Some(token) =>
        Outcome(Response(200, Text(LogoutText)), s.(blacklist := InvalidateToken(s.blacklist, token)))
  }

  /** The account `deleteAllAccounts` recreates. */
  const GenericAdmin: AccountForm := AccountForm(None, "admin", "admin", "admin@email.com")

  /**
   * `deleteAllAccounts` (`/account/clear`): revokes the caller's bearer token
   * if there is one, then leaves the table holding exactly one account,
   * `admin` with the hash of `"admin"` and role ADMIN, under a fresh id.
   */
  function DeleteAll(env: Env, s: State, header: Option<string>, salt: Salt): (r: Outcome)
    ensures r.response == Response(200, Text(ClearText))
    ensures r.state.blacklist ==
              if ExtractToken(header).Some? then InvalidateToken(s.blacklist, ExtractToken(header).value) else s.blacklist
    ensures r.state.store.rows ==
              map[s.store.nextId := Account(s.store.nextId, "admin", env.encoder.encode(salt, "admin"), "admin@email.com", ADMIN)]
    ensures r.state.now == s.now
  {
    var blacklist := match ExtractToken(header)
      case Some(token) => InvalidateToken(s.blacklist, token)
      case None => s.blacklist;
    var cleared := DeleteAllAccounts(s.store);
    assert Contains("admin", "admin");
    match SaveAccount(cleared, GenericAdmin, salt, env.encoder)
    case Success(saved) => Outcome(Response(200, Text(ClearText)), State(saved.store, blacklist, s.now))
    case Failure(_) => Outcome(Response(500, Text(ClearErrorText)), State(cleared, blacklist, s.now))
  }

  /** The row an edit stores when it succeeds, given the password string it hands to `saveAccount`. */
  function EditedRow(form: AccountForm, hash: string): Account
    requires form.id.Some?
  {
    Account(form.id.value, form.username, hash, form.email, AssignedRole(form.username))
  }

  /** Another row already has the username an edit of `id` asks for. */
  predicate UsernameTaken(s: State, id: nat, username: string) {
    exists j :: j in s.store.rows && j != id && s.store.rows[j].username == username
  }

  /**
   * `editAccount`: a missing id throws (500); an id not in the table gives
   * 404; otherwise the submitted password is hashed and handed to
   * `saveAccount`, which hashes it a second time. A username clash gives 500.
   */
  function EditAccount(env: Env, s: State, form: AccountForm, salt1: Salt, salt2: Salt): (r: Outcome)
    ensures r.state.blacklist == s.blacklist && r.state.now == s.now
    ensures form.id.None? ==> r == Outcome(Response(500, NoBody), s)
    ensures form.id.Some? && form.id.value !in s.store.rows ==> r == Outcome(Response(404, NoBody), s)
    ensures form.id.Some? && form.id.value in s.store.rows && UsernameTaken(s, form.id.value, form.username) ==>
              r == Outcome(Response(500, NoBody), s)
    ensures form.id.Some? && form.id.value in s.store.rows && !UsernameTaken(s, form.id.value, form.username) ==>
              var row := EditedRow(form, env.encoder.encode(salt2, env.encoder.encode(salt1, form.password)));
              && r.response == Response(200, Row(row))
              && r.state.store.rows == s.store.rows[form.id.value := row]
  {
    match form.id
    case None => Outcome(Response(500, NoBody), s)
    case Some(id) =>
      if GetAccountById(s.store, id).None? then Outcome(Response(404, NoBody), s)
      else
        var hashed := form.(password := env.encoder.encode(salt1, form.password));
        match SaveAccount(s.store, hashed, salt2, env.encoder)
        case Failure(_) => Outcome(Response(500, NoBody), s)
        case Success(saved) => Outcome(Response(200, Row(saved.row)), s.(store := saved.store))
  }

  /**
   * The role endpoint, whose request body is the username: an empty body is
   * refused with 400 before the handler runs (the body is required);
   * otherwise `{"role":"<ROLE>"}` for a stored username, and an unknown one
   * makes the handler throw (500).
   */
  function GetRole(s: State, username: string): (r: Outcome)
    ensures r.state == s
    ensures username == "" ==> r.response == Response(400, FrameworkError)
    ensures username != "" && GetAccountByUsername(s.store, username).Failure? ==> r.response == Response(500, FrameworkError)
    ensures username != "" && GetAccountByUsername(s.store, username).Success? ==>
              r.response == Response(200, Text("{\"role\":\"" + RoleName(GetAccountByUsername(s.store, username).value.role) + "\"}"))
  {
    if username == "" then Outcome(Response(400, FrameworkError), s)
    else match GetAccountByUsername(s.store, username)
    case Failure(_) => Outcome(Response(500, FrameworkError), s)
    case Success(account) =>
      StripRolesText(account.role);
      Outcome(Response(200, Text("{\"role\":\"" + StripBrackets(RolesText(account.role)) + "\"}")), s)
  }

  /**
   * The role endpoint reports the role `saveAccount` assigned: after a save
   * into a valid table, ADMIN exactly when the username contains `"admin"`;
   * only the empty username cannot be asked about (400).
   */
  lemma RoleOfSavedAccount(env: Env, s: State, form: AccountForm, salt: Salt)
    requires Valid(s.store)
    requires SaveAccount(s.store, form, salt, env.encoder).Success?
    ensures var saved := s.(store := SaveAccount(s.store, form, salt, env.encoder).value.store);
            GetRole(saved, form.username).response ==
            if form.username == "" then Response(400, FrameworkError)
            else Response(200, Text("{\"role\":\"" + (if Contains(form.username, "admin") then "ADMIN" else "USER") + "\"}"))
  {
    SavedAccountIsFound(s.store, form, salt, env.encoder);
  }

  /**
   * In a valid table the login outcome is decided by the table: an unknown
   * name, or the empty name with its password, is 500; a wrong password 401;
   * any other name with its password 200.
   */
  lemma LoginStatus(env: Env, s: State, form: AccountForm)
    requires Valid(s.store)
    ensures var status := Login(env, s, form).response.status;
            && (status == 500 <==>
                  (forall j :: j in s.store.rows ==> s.store.rows[j].username != form.username) ||
                  (form.username == "" &&
                   exists j :: j in s.store.rows && s.store.rows[j].username == form.username &&
                               env.encoder.matches(form.password, s.store.rows[j].password)))
            && (status == 401 <==> exists j :: j in s.store.rows && s.store.rows[j].username == form.username &&
                                              !env.encoder.matches(form.password, s.store.rows[j].password))
            && (status == 200 <==> form.username != "" &&
                                   exists j :: j in s.store.rows && s.store.rows[j].username == form.username &&
                                               env.encoder.matches(form.password, s.store.rows[j].password))
  {
    FindByUsernameExact(s.store, form.username);
  }

  /**
   * As written, login tells an unknown username (500) apart from a wrong
   * password for a known one (401), although the handler's own null test
   * shows both were meant to be refused with 401.
   */
  lemma LoginRevealsUnknownUsers(env: Env, s: State, unknown: AccountForm, wrong: AccountForm)
    requires Valid(s.store)
    requires forall j :: j in s.store.rows ==> s.store.rows[j].username != unknown.username
    requires exists j :: j in s.store.rows && s.store.rows[j].username == wrong.username &&
                         !env.encoder.matches(wrong.password, s.store.rows[j].password)
    ensures Login(env, s, unknown).response.status == 500
    ensures Login(env, s, wrong).response.status == 401
  {
    LoginStatus(env, s, unknown);
    LoginStatus(env, s, wrong);
  }

  /** Login as evidently intended: an unknown username is refused like a wrong password. */
  function LoginCorrected(env: Env, s: State, form: AccountForm): (r: Outcome)
    ensures r.state == s
    ensures GetAccountByUsername(s.store, form.username).Failure? ==>
              r.response == Response(401, Text(InvalidCredentialsText))
    ensures GetAccountByUsername(s.store, form.username).Success? ==> r == Login(env, s, form)
  {
    if GetAccountByUsername(s.store, form.username).Failure? then Outcome(Response(401, Text(InvalidCredentialsText)), s)
    else Login(env, s, form)
  }

  /** The corrected login gives an unknown username and a wrong password the very same response. */
  lemma LoginCorrectedHidesUnknownUsers(env: Env, s: State, unknown: AccountForm, wrong: AccountForm)
    requires Valid(s.store)
    requires forall j :: j in s.store.rows ==> s.store.rows[j].username != unknown.username
    requires exists j :: j in s.store.rows && s.store.rows[j].username == wrong.username &&
                         !env.encoder.matches(wrong.password, s.store.rows[j].password)
    ensures LoginCorrected(env, s, unknown).response == LoginCorrected(env, s, wrong).response
    ensures LoginCorrected(env, s, unknown).response == Response(401, Text(InvalidCredentialsText))
  {
    LoginStatus(env, s, wrong);
    FindByUsernameExact(s.store, wrong.username);
  }

  /**
   * A transparent encoder that obeys `BCryptLaws`; it shows the laws leave
   * open whether a password matches the encoding of its own encoding.
   */
  const ToyEncoder: PasswordEncoder :=
    PasswordEncoder((salt: Salt, p: string) => "{toy}" + p, (p: string, hash: string) => hash == "{toy}" + p)

  lemma ToyEncoderObeysLaws()
    ensures BCryptLaws(ToyEncoder)
  {
  }

  /** An edit that succeeds stores the row a valid table then finds by its username. */
  lemma EditStoresRow(env: Env, s: State, form: AccountForm, hash: string, salt: Salt)
    requires Valid(s.store)
    requires form.id.Some? && form.id.value in s.store.rows && !UsernameTaken(s, form.id.value, form.username)
    ensures var saved := SaveAccount(s.store, form.(password := hash), salt, env.encoder);
            && saved.Success?
            && saved.value.row == EditedRow(form, env.encoder.encode(salt, hash))
            && Valid(saved.value.store)
            && GetAccountByUsername(saved.value.store, form.username) == Success(saved.value.row)
  {
    SavedAccountIsFound(s.store, form.(password := hash), salt, env.encoder);
  }

  /** Under `ToyEncoder` no password matches the encoding of its own encoding. */
  lemma ToyEncoderDoubleHashMismatch(p: string, salt1: Salt, salt2: Salt)
    ensures !ToyEncoder.matches(p, ToyEncoder.encode(salt2, ToyEncoder.encode(salt1, p)))
  {
    var stored := ToyEncoder.encode(salt2, ToyEncoder.encode(salt1, p));
    assert |stored| == |"{toy}" + p| + 5;
  }

  /**
   * As written, after a successful edit the password that logs in is the
   * first hash, which the client never sees (for the empty username nothing
   * logs in); with an encoder under which the submitted password does not
   * match the encoding of its encoding (BCrypt, or `ToyEncoder`), the edited
   * password itself is refused (401).
   */
  lemma EditedPasswordRejected(env: Env, s: State, form: AccountForm, salt1: Salt, salt2: Salt, email: string)
    requires BCryptLaws(env.encoder)
    requires !env.encoder.matches(form.password, env.encoder.encode(salt2, env.encoder.encode(salt1, form.password)))
    requires Valid(s.store)
    requires form.id.Some? && form.id.value in s.store.rows && !UsernameTaken(s, form.id.value, form.username)
    ensures var edited := EditAccount(env, s, form, salt1, salt2);
            var firstHash := env.encoder.encode(salt1, form.password);
            && edited.response.status == 200
            && Login(env, edited.state, AccountForm(None, form.username, firstHash, email)).response.status ==
               (if form.username != "" then 200 else 500)
            && Login(env, edited.state, AccountForm(None, form.username, form.password, email)).response.status == 401
  {
    EditStoresRow(env, s, form, env.encoder.encode(salt1, form.password), salt2);
  }

  /** Edit as evidently intended: the submitted password is hashed once, by `saveAccount`. */
  function EditAccountCorrected(env: Env, s: State, form: AccountForm, salt: Salt): (r: Outcome)
    ensures r.state.blacklist == s.blacklist && r.state.now == s.now
    ensures form.id.None? ==> r == Outcome(Response(500, NoBody), s)
    ensures form.id.Some? && form.id.value !in s.store.rows ==> r == Outcome(Response(404, NoBody), s)
    ensures form.id.Some? && form.id.value in s.store.rows && UsernameTaken(s, form.id.value, form.username) ==>
              r == Outcome(Response(500, NoBody), s)
    ensures form.id.Some? && form.id.value in s.store.rows && !UsernameTaken(s, form.id.value, form.username) ==>
              var row := EditedRow(form, env.encoder.encode(salt, form.password));
              && r.response == Response(200, Row(row))
              && r.state.store.rows == s.store.rows[form.id.value := row]
  {
    match form.id
    case None => Outcome(Response(500, NoBody), s)
    case Some(id) =>
      if GetAccountById(s.store, id).None? then Outcome(Response(404, NoBody), s)
      else
        match SaveAccount(s.store, form, salt, env.encoder)
        case Failure(_) => Outcome(Response(500, NoBody), s)
        case Success(saved) => Outcome(Response(200, Row(saved.row)), s.(store := saved.store))
  }

  /**
   * After the corrected edit, the new username and password log in, for any
   * encoder obeying the laws; only the empty username still ends in 500.
   */
  lemma EditedPasswordAccepted(env: Env, s: State, form: AccountForm, salt: Salt, email: string)
    requires BCryptLaws(env.encoder)
    requires Valid(s.store)
    requires form.id.Some? && form.id.value in s.store.rows && !UsernameTaken(s, form.id.value, form.username)
    ensures var edited := EditAccountCorrected(env, s, form, salt);
            && edited.response.status == 200
            && LoginCorrected(env, edited.state, AccountForm(None, form.username, form.password, email)).response.status ==
               (if form.username != "" then 200 else 500)
  {
    EditStoresRow(env, s, form, form.password, salt);
  }
}
