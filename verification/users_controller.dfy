/**
 * User administration: create, edit and delete as operations on the user
 * store. The password is stored only as its hash, and the role is stored in
 * normalised form. `hash` stands for the application's SHA-256 hasher and
 * `modelValid` for the outcome of model binding's validation.
 */
module UsersController {
  import opened Wrappers
  import opened Int32
  import opened Text
  import opened Roles
  import opened UserModel

  /** The bound form: Id (edit only), Name, Email, Password and Role. */
  datatype UserForm = UserForm(
    id: int32,
    name: string,
    email: string,
    password: Option<string>,
    role: Option<string>)

  /** Saved, shown again (Invalid), NotFound, or rejected by the unique e-mail index (Conflict). */
  datatype Outcome = Saved | Invalid | NotFound | Conflict

  datatype UserResult = UserResult(outcome: Outcome, store: UserStore)

  /**
   * Model-state validity of a bound form. Password and Role carry `[Required]`,
   * which rejects a missing, empty or all-white-space value; the actions depend
   * on both, so they are spelled out. `modelValid` stands for the remaining
   * annotations: Name and Email required, the string lengths and the e-mail format.
   */
  predicate FormValid(form: UserForm, modelValid: bool) {
    modelValid && !IsNullOrWhiteSpace(form.password) && !IsNullOrWhiteSpace(form.role)
  }

  /**
   * Create: an invalid form is shown again; a valid one is stored under the id
   * the database assigns, with the hash of its password and its role normalised.
   * The save fails when another user already has the e-mail address.
   */
  function Create(store: UserStore, form: UserForm, modelValid: bool, hash: string -> string,
                  freshId: int32, now: int): (r: UserResult)
    requires freshId !in store
    ensures r.outcome == Saved <==>
      FormValid(form, modelValid) && !EmailTakenByOther(store, form.email, None)
    ensures IsNullOrWhiteSpace(form.password) || IsNullOrWhiteSpace(form.role) ==> r.outcome == Invalid
    ensures r.outcome != Saved ==> r.store == store
    ensures r.outcome == Saved ==>
      && freshId in r.store
      && r.store == store[freshId := r.store[freshId]]
      && Stored(r.store[freshId], freshId, form, hash, now)
    ensures WellKeyed(store) && UniqueEmails(store) ==> WellKeyed(r.store) && UniqueEmails(r.store)
  {
    if !FormValid(form, modelValid) then UserResult(Invalid, store)
    else if EmailTakenByOther(store, form.email, None) then UserResult(Conflict, store)
    else
      var u := User(freshId, form.name, form.email, hash(form.password.value),
                    Some(NormalizeRole(form.role)), now);
      assert !EmailTakenByOther(store, u.email, Some(freshId));
      StoreKeepsInvariant(store, freshId, u);
      UserResult(Saved, store[freshId := u])
  }

  /**
   * The user Create stores: the assigned id, the form's name and address, the
   * hash of the form's password, the normalised role and the creation time.
   */
  predicate Stored(u: User, id: int32, form: UserForm, hash: string -> string, now: int)
    requires form.password.Some?
  {
    && u.id == id && u.name == form.name && u.email == form.email
    && u.password == hash(form.password.value)
    && u.role == Some(NormalizeRole(form.role))
    && u.createdAt == now
  }

  /**
   * The user an edit leaves behind: same id and creation time, the form's name,
   * address and normalised role, and the old password hash when the form's
   * password is blank, the hash of the new one otherwise.
   */
  predicate Edited(before: User, after: User, form: UserForm, hash: string -> string) {
    && after.id == before.id && after.createdAt == before.createdAt
    && after.name == form.name && after.email == form.email
    && after.role == Some(NormalizeRole(form.role))
    && (IsNullOrWhiteSpace(form.password) ==> after.password == before.password)
    && (!IsNullOrWhiteSpace(form.password) ==> after.password == hash(form.password.value))
  }

  /**
   * The Edit action's logic for a given model-state verdict `valid`: NotFound
   * when the route id differs from the form's id or no user has it; an invalid
   * form is shown again; otherwise Name, Email and Role are overwritten, and the
   * password is replaced by the hash of the new one only when a non-blank one
   * was supplied.
   */
  function EditWith(store: UserStore, id: int32, form: UserForm, valid: bool,
                    hash: string -> string): (r: UserResult)
    ensures r.outcome == NotFound <==> id != form.id || (valid && id !in store)
    ensures r.outcome == Saved <==>
      id == form.id && valid && id in store && !EmailTakenByOther(store, form.email, Some(id))
    ensures r.outcome != Saved ==> r.store == store
    ensures r.outcome == Saved ==>
      && id in r.store
      && r.store == store[id := r.store[id]]
      && Edited(store[id], r.store[id], form, hash)
    ensures WellKeyed(store) && UniqueEmails(store) ==> WellKeyed(r.store) && UniqueEmails(r.store)
  {
    if id != form.id then UserResult(NotFound, store)
    else if !valid then UserResult(Invalid, store)
    else if id !in store then UserResult(NotFound, store)
    else if EmailTakenByOther(store, form.email, Some(id)) then UserResult(Conflict, store)
    else
      var user := store[id];
      var password := if IsNullOrWhiteSpace(form.password) then user.password else hash(form.password.value);
      var updated := user.(name := form.name, email := form.email,
                           role := Some(NormalizeRole(form.role)), password := password);
      StoreKeepsInvariant(store, id, updated);
      UserResult(Saved, store[id := updated])
  }

  /**
   * Edit as written: the form is validated like Create's, so a blank password
   * fails `[Required]` and the form is shown again. A saved edit therefore
   * always replaces the password hash; the keep-the-old-password branch never runs.
   */
  function Edit(store: UserStore, id: int32, form: UserForm, modelValid: bool,
                hash: string -> string): (r: UserResult)
    ensures r.outcome == NotFound <==> id != form.id || (FormValid(form, modelValid) && id !in store)
    ensures r.outcome == Saved <==>
      && id == form.id && FormValid(form, modelValid) && id in store
      && !EmailTakenByOther(store, form.email, Some(id))
    ensures id == form.id && IsNullOrWhiteSpace(form.password) ==> r.outcome == Invalid
    ensures r.outcome != Saved ==> r.store == store
    ensures r.outcome == Saved ==>
      && id in r.store
      && r.store == store[id := r.store[id]]
      && Edited(store[id], r.store[id], form, hash)
      && r.store[id].password == hash(form.password.value)
    ensures WellKeyed(store) && UniqueEmails(store) ==> WellKeyed(r.store) && UniqueEmails(r.store)
  {
    EditWith(store, id, form, FormValid(form, modelValid), hash)
  }

  /**
   * Edit as evidently intended: Password is optional when editing, so a blank
   * password keeps the stored hash; Role stays required.
   */
  function EditOptionalPassword(store: UserStore, id: int32, form: UserForm, modelValid: bool,
                                hash: string -> string): (r: UserResult)
    ensures r.outcome == Saved <==>
      && id == form.id && modelValid && !IsNullOrWhiteSpace(form.role) && id in store
      && !EmailTakenByOther(store, form.email, Some(id))
    ensures r.outcome != Saved ==> r.store == store
    ensures r.outcome == Saved ==>
      && id in r.store
      && r.store == store[id := r.store[id]]
      && Edited(store[id], r.store[id], form, hash)
    ensures r.outcome == Saved && IsNullOrWhiteSpace(form.password) ==>
      r.store[id] == store[id].(name := form.name, email := form.email, role := Some(NormalizeRole(form.role)))
    ensures WellKeyed(store) && UniqueEmails(store) ==> WellKeyed(r.store) && UniqueEmails(r.store)
  {
    EditWith(store, id, form, modelValid && !IsNullOrWhiteSpace(form.role), hash)
  }

  /**
   * A user whose edit form comes back with the password field left blank: Edit
   * as written shows the form again, while the intended edit saves and keeps
   * the stored password hash.
   */
  lemma EditBlankPasswordWitness(hash: string -> string)
    ensures var ana := User(1, "Ana", "ana@example.com", hash("secreto"), Some(Customer), 0);
            var form := UserForm(1, "Ana", "ana@example.com", None, Some(Customer));
            && Edit(map[1 := ana], 1, form, true, hash) == UserResult(Invalid, map[1 := ana])
            && EditOptionalPassword(map[1 := ana], 1, form, true, hash).outcome == Saved
            && EditOptionalPassword(map[1 := ana], 1, form, true, hash).store[1].password == ana.password
  {
    var ana := User(1, "Ana", "ana@example.com", hash("secreto"), Some(Customer), 0);
    var form := UserForm(1, "Ana", "ana@example.com", None, Some(Customer));
    assert !IsNullOrWhiteSpace(form.role) by {
      assert !IsWhiteSpace(Customer[0]);
    }
    assert !EmailTakenByOther(map[1 := ana], form.email, Some(1));
  }

  /** DeleteConfirmed: removes the given id, if stored, and nothing else. */
  function DeleteConfirmed(store: UserStore, id: int32): (r: UserStore)
    ensures r.Keys == store.Keys - {id}
    ensures forall k | k in r :: r[k] == store[k]
    ensures id !in store ==> r == store
    ensures WellKeyed(store) && UniqueEmails(store) ==> WellKeyed(r) && UniqueEmails(r)
  {
    store - {id}
  }

  /**
   * Storing a user under its own id keeps every user under its own id and the
   * addresses unique, provided no other user already has its address.
   */
  lemma StoreKeepsInvariant(store: UserStore, id: int32, u: User)
    ensures WellKeyed(store) && UniqueEmails(store) && u.id == id && !EmailTakenByOther(store, u.email, Some(id))
            ==> WellKeyed(store[id := u]) && UniqueEmails(store[id := u])
  {
    if WellKeyed(store) && UniqueEmails(store) && u.id == id && !EmailTakenByOther(store, u.email, Some(id)) {
      var s := store[id := u];
      forall a, b | a in s && b in s && a != b ensures s[a].email != s[b].email {
        if a == id {
          assert s[b] == store[b];
        } else if b == id {
          assert s[a] == store[a];
        }
      }
    }
  }
}
