/**
 * The stored user account. The password field holds the hash of the password;
 * the database keeps e-mail addresses unique through a unique index.
 */
module UserModel {
  import opened Wrappers
  import opened Int32

  datatype User = User(
    id: int32,
    name: string,
    email: string,
    password: string,
    role: Option<string>,
    createdAt: int)

  type UserStore = map<int32, User>

  /** Every user is stored under its own id (the primary key). */
  predicate WellKeyed(store: UserStore) {
    forall id | id in store :: store[id].id == id
  }

  /** The unique index on Email: no two stored users share an address. */
  predicate UniqueEmails(store: UserStore) {
    forall a, b | a in store && b in store && a != b :: store[a].email != store[b].email
  }

  /** Some user other than `except` already has `email`. */
  predicate EmailTakenByOther(store: UserStore, email: string, except: Option<int32>) {
    exists id | id in store :: store[id].email == email && Some(id) != except
  }
}
