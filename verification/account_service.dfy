/**
 * `AccountService`: account lookups that throw when nothing is found, the
 * save rule (hash the password, pick the role from the username), deletion,
 * and the `UserDetailsService` lookup Spring Security authenticates with.
 */
module AccountService {
  import opened Base
  import opened JavaStrings
  import opened Crypto
  import opened Accounts

  /**
   * The exceptions the service throws. `EmptyUserDetails` is the
   * `IllegalArgumentException` of Spring's `User` constructor, which refuses
   * an empty username.
   */
  datatype ServiceError = AccountNotFound | UsernameNotFound(username: string) | EmptyUserDetails | StoreFailure(cause: StoreError)

  /** Spring's `User`: username, password hash and granted authority names. */
  datatype UserDetails = UserDetails(username: string, password: string, authorities: set<string>)

  /** `getAccountById`: a present `Optional` exactly when the id is in the table. */
  function GetAccountById(store: AccountStore, id: nat): (r: Option<Account>)
    ensures r.Some? <==> id in store.rows
    ensures r.Some? ==> r.value == store.rows[id]
  {
    if id in store.rows then Some(store.rows[id]) else None
  }

  /** `getAccountByUsername`: the stored row, or `AccountNotFoundException` when there is none. */
  function GetAccountByUsername(store: AccountStore, username: string): (r: Result<Account, ServiceError>)
    ensures Valid(store) ==> (r.Failure? <==> forall j :: j in store.rows ==> store.rows[j].username != username)
    ensures r.Failure? ==> r.error == AccountNotFound
    ensures r.Success? ==> r.value.username == username && exists j :: j in store.rows && store.rows[j] == r.value
  {
    FindByUsernameExact(store, username);
    match FindByUsername(store, username)
    case None => Failure(AccountNotFound)
    case Some(account) => Success(account)
  }

  /** A username containing `"administrator"` contains `"admin"`. */
  lemma AdministratorContainsAdmin(username: string)
    ensures Contains(username, "administrator") ==> Contains(username, "admin")
  {
    if Contains(username, "administrator") {
      assert Contains("administrator", "admin");
      ContainsTransitive(username, "administrator", "admin");
    }
  }

  /**
   * The role `saveAccount` assigns, with both of the source's substring
   * tests. The `"administrator"` test is subsumed: the role is ADMIN exactly
   * when the username contains `"admin"`.
   */
  function AssignedRole(username: string): (role: Role)
    ensures role == ADMIN <==> Contains(username, "admin")
  {
    AdministratorContainsAdmin(username);
    if Contains(username, "admin") || Contains(username, "administrator") then ADMIN else USER
  }

  /**
   * `saveAccount` with the salt BCrypt draws: stores the encoding of the
   * supplied password (never the supplied string itself) and exactly one
   * role, ADMIN iff the username contains `"admin"`; fails only on a
   * duplicate username.
   */
  function SaveAccount(store: AccountStore, form: AccountForm, salt: Salt, encoder: PasswordEncoder): (r: Result<Saved, ServiceError>)
    ensures r.Failure? <==>
              exists j :: j in store.rows && j != SaveTarget(store, form) && store.rows[j].username == form.username
    ensures r.Success? ==>
              var row := r.value.row;
              && row.id == SaveTarget(store, form)
              && row.username == form.username
              && row.email == form.email
              && row.password == encoder.encode(salt, form.password)
              && (row.role == ADMIN <==> Contains(form.username, "admin"))
              && r.value.store.rows == store.rows[row.id := row]
  {
    var hashed := form.(password := encoder.encode(salt, form.password));
    match Save(store, hashed, AssignedRole(form.username))
    case Success(saved) => Success(saved)
    case Failure(e) => Failure(StoreFailure(e))
  }

  /**
   * `loadUserByUsername`: `UsernameNotFoundException` for an unknown name;
   * for a stored row whose username is empty, the `User` constructor throws;
   * otherwise the stored username, password hash and the role as authority.
   */
  function LoadUserByUsername(store: AccountStore, username: string): (r: Result<UserDetails, ServiceError>)
    ensures r.Failure? <==> GetAccountByUsername(store, username).Failure? || username == ""
    ensures r.Failure? ==>
              r.error == if GetAccountByUsername(store, username).Failure? then UsernameNotFound(username) else EmptyUserDetails
    ensures r.Success? ==>
              var account := GetAccountByUsername(store, username).value;
              r.value == UserDetails(account.username, account.password, {RoleName(account.role)})
  {
    match FindByUsername(store, username)
    case None => Failure(UsernameNotFound(username))
    case Some(account) =>
      if account.username == "" then Failure(EmptyUserDetails)
      else Success(UserDetails(account.username, account.password, {RoleName(account.role)}))
  }

  /** `deleteAccountById`: removes that id only (a missing id is a no-op). */
  function DeleteAccountById(store: AccountStore, id: nat): (r: AccountStore)
    ensures id !in r.rows
    ensures forall j :: j != id ==> (j in r.rows <==> j in store.rows)
    ensures forall j :: j in r.rows ==> r.rows[j] == store.rows[j]
    ensures r.nextId == store.nextId
  {
    AccountStore(store.rows - {id}, store.nextId)
  }

  /** `deleteAllAccounts`: the table is left empty; the identity column keeps counting. */
  function DeleteAllAccounts(store: AccountStore): (r: AccountStore)
    ensures |r.rows| == 0
    ensures r.nextId == store.nextId
  {
    AccountStore(map[], store.nextId)
  }

  /** A saved row is what `getAccountById` and, in a valid table, `getAccountByUsername` return afterwards. */
  lemma SavedAccountIsFound(store: AccountStore, form: AccountForm, salt: Salt, encoder: PasswordEncoder)
    requires Valid(store)
    requires SaveAccount(store, form, salt, encoder).Success?
    ensures var saved := SaveAccount(store, form, salt, encoder).value;
            && Valid(saved.store)
            && GetAccountById(saved.store, saved.row.id) == Some(saved.row)
            && GetAccountByUsername(saved.store, form.username) == Success(saved.row)
  {
    var hashed := form.(password := encoder.encode(salt, form.password));
    SaveKeepsValid(store, hashed, AssignedRole(form.username));
    var saved := SaveAccount(store, form, salt, encoder).value;
    FindByUsernameExact(saved.store, form.username);
  }

  /** Deleting keeps the table valid, and the deleted id is no longer found. */
  lemma DeleteKeepsValid(store: AccountStore, id: nat)
    requires Valid(store)
    ensures Valid(DeleteAccountById(store, id)) && Valid(DeleteAllAccounts(store))
    ensures GetAccountById(DeleteAccountById(store, id), id).None?
  {
  }
}
