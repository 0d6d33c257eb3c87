/**
 * The `Account` entity and the account table behind `AccountRepository`.
 *
 * Ids come from an identity column (`nextId` is the next value it hands
 * out); `username` is a Hibernate natural id and therefore unique. `Valid`
 * is the table's invariant.
 */
module Accounts {
  import opened Base

  /** The two roles; `RoleName` is the enum constant's `toString`. */
  datatype Role = USER | ADMIN

  function RoleName(role: Role): string {
    match role
    case USER => "USER"
    case ADMIN => "ADMIN"
  }

  /** An account as a JSON request body carries it: the id may be missing (`null`). */
  datatype AccountForm = AccountForm(id: Option<nat>, username: string, password: string, email: string)

  /** A stored row: its id, username, password hash, email and its single role. */
  datatype Account = Account(id: nat, username: string, password: string, email: string, role: Role)

  datatype AccountStore = AccountStore(rows: map<nat, Account>, nextId: nat)

  /** Every row sits under its own id below `nextId`, and no two rows share a username. */
  ghost predicate Valid(store: AccountStore) {
    && (forall id :: id in store.rows ==> store.rows[id].id == id && id < store.nextId)
    && (forall i, j :: i in store.rows && j in store.rows && store.rows[i].username == store.rows[j].username ==> i == j)
  }

  /** The least id at or above `from` whose row has `username`. */
  function ScanUsername(store: AccountStore, username: string, from: nat): (r: Option<nat>)
    ensures r.Some? ==> from <= r.value < store.nextId && r.value in store.rows && store.rows[r.value].username == username
    ensures r.None? ==> forall j :: from <= j < store.nextId && j in store.rows ==> store.rows[j].username != username
    decreases store.nextId - from
  {
    if from >= store.nextId then None
    else if from in store.rows && store.rows[from].username == username then Some(from)
    else ScanUsername(store, username, from + 1)
  }

  /** `findByUsername`: the row with that username, or `null`. */
  function FindByUsername(store: AccountStore, username: string): (r: Option<Account>)
    ensures r.Some? ==> r.value.username == username && exists j :: j in store.rows && store.rows[j] == r.value
  {
    match ScanUsername(store, username, 0)
    case Some(id) => Some(store.rows[id])
    case None => None
  }

  /** In a valid table `findByUsername` is exact: it finds the row with that username whenever there is one. */
  lemma FindByUsernameExact(store: AccountStore, username: string)
    ensures Valid(store) ==>
              (FindByUsername(store, username).None? <==>
                 forall j :: j in store.rows ==> store.rows[j].username != username)
    ensures Valid(store) && FindByUsername(store, username).Some? ==>
              var row := FindByUsername(store, username).value;
              row.id in store.rows && store.rows[row.id] == row
  {
  }

  /** The save failed on the unique username constraint. */
  datatype StoreError = DuplicateUsername

  /** What `save` returns: the stored row, and the table after it. */
  datatype Saved = Saved(row: Account, store: AccountStore)

  /**
   * The id `save` writes to: the form's own id when that row exists (an
   * update through `merge`), otherwise a fresh identity value (an insert).
   */
  function SaveTarget(store: AccountStore, form: AccountForm): nat {
    if form.id.Some? && form.id.value in store.rows then form.id.value else store.nextId
  }

  /** `accountRepository.save`: writes the form's fields with `role`, unless another row has the username. */
  function Save(store: AccountStore, form: AccountForm, role: Role): (r: Result<Saved, StoreError>)
    ensures r.Failure? <==>
              exists j :: j in store.rows && j != SaveTarget(store, form) && store.rows[j].username == form.username
    ensures r.Success? ==>
              && r.value.row == Account(SaveTarget(store, form), form.username, form.password, form.email, role)
              && r.value.store.rows == store.rows[r.value.row.id := r.value.row]
  {
    var id := SaveTarget(store, form);
    if exists j :: j in store.rows && j != id && store.rows[j].username == form.username then
      Failure(DuplicateUsername)
    else
      var row := Account(id, form.username, form.password, form.email, role);
      Success(Saved(row, AccountStore(store.rows[id := row], if id == store.nextId then store.nextId + 1 else store.nextId)))
  }

  lemma SaveKeepsValid(store: AccountStore, form: AccountForm, role: Role)
    requires Valid(store)
    requires Save(store, form, role).Success?
    ensures Valid(Save(store, form, role).value.store)
  {
  }
}
