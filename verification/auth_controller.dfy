/**
 * Login: the credential lookup, the claims written into the authentication
 * cookie, and where the browser is sent afterwards. The claims principal is
 * also where the other controllers read the current user's id and role from.
 */
module AuthController {
  import opened Wrappers
  import opened Int32
  import opened Text
  import opened Numerals
  import opened Roles
  import opened UserModel
  import UsersController

  /** The claims of a signed-in user: NameIdentifier, Name, Email and Role. */
  datatype Principal = Principal(nameIdentifier: string, name: string, email: string, role: string)

  /** `User.IsInRole(role)`. */
  predicate IsInRole(p: Principal, role: string) {
    p.role == role
  }

  /** `int.Parse` of the NameIdentifier claim; `None` where the parse throws. */
  function CurrentUserId(p: Principal): Option<int32> {
    ParseInt(p.nameIdentifier)
  }

  /**
   * The claims built for a user at login: the id as decimal text (which parses
   * back to the id), the name, the e-mail address and the normalised role.
   */
  function ClaimsFor(u: User): (p: Principal)
    ensures CurrentUserId(p) == Some(u.id)
    ensures p.name == u.name && p.email == u.email
    ensures p.role == NormalizeRole(u.role) && IsKnownRole(p.role)
  {
    ParseIntToString(u.id);
    Principal(IntToString(u.id), u.name, u.email, NormalizeRole(u.role))
  }

  /** The user's e-mail address and stored password hash match the attempt. */
  predicate Authenticates(u: User, email: string, password: string, hash: string -> string) {
    u.email == email && u.password == hash(password)
  }

  datatype Redirect = ToReturnUrl(url: string) | ToHome

  /** To `returnUrl` only when it is non-empty and local; otherwise to the home page. */
  function RedirectAfterLogin(returnUrl: Option<string>, isLocal: string -> bool): (r: Redirect)
    ensures r.ToReturnUrl? <==> !IsNullOrEmpty(returnUrl) && isLocal(returnUrl.value)
    ensures r.ToReturnUrl? ==> r.url == returnUrl.value
  {
    if !IsNullOrEmpty(returnUrl) && isLocal(returnUrl.value) then ToReturnUrl(returnUrl.value)
    else ToHome
  }

  datatype LoginResult = Rejected | SignedIn(principal: Principal, redirect: Redirect)

  /**
   * Login: signs in a user whose e-mail address equals `email` and whose stored
   * password equals the hash of `password`; with no such user nothing is signed
   * in and an error is reported. The database returns the first match in no
   * particular order, so any matching user may be chosen; with unique e-mail
   * addresses there is only one.
   */
  method Login(store: UserStore, email: string, password: string, returnUrl: Option<string>,
               hash: string -> string, isLocal: string -> bool) returns (r: LoginResult)
    ensures r.Rejected? <==> forall id | id in store :: !Authenticates(store[id], email, password, hash)
    ensures r.SignedIn? ==>
      exists id | id in store :: Authenticates(store[id], email, password, hash)
                                 && r.principal == ClaimsFor(store[id])
    ensures r.SignedIn? && UniqueEmails(store) ==>
      forall id | id in store && Authenticates(store[id], email, password, hash) ::
        r.principal == ClaimsFor(store[id])
    ensures r.SignedIn? ==> IsKnownRole(r.principal.role)
    ensures r.SignedIn? ==> r.redirect == RedirectAfterLogin(returnUrl, isLocal)
  {
    var hashed := hash(password);
    if id :| id in store && store[id].email == email && store[id].password == hashed {
      var claims := ClaimsFor(store[id]);
      r := SignedIn(claims, RedirectAfterLogin(returnUrl, isLocal));
    } else {
      r := Rejected;
    }
  }

  /**
   * The three places that normalise a role agree: a user stored by Create or
   * Edit with a normalised role gets exactly that role as the claim at login.
   */
  lemma LoginRoleMatchesStoredRole(u: User, raw: Option<string>)
    requires u.role == Some(NormalizeRole(raw))
    ensures ClaimsFor(u).role == NormalizeRole(raw)
  {
    NormalizeRoleIdempotent(raw);
  }

  /**
   * An account created through the user administration can log in with the
   * plain-text password it was created with: its stored hash matches, it is
   * the only account that matches, and the claims carry its id and its role.
   */
  lemma CreatedUserCanLogIn(store: UserStore, form: UsersController.UserForm, modelValid: bool,
                            hash: string -> string, freshId: int32, now: int)
    requires freshId !in store
    requires WellKeyed(store) && UniqueEmails(store)
    requires UsersController.FormValid(form, modelValid) && !EmailTakenByOther(store, form.email, None)
    ensures var s := UsersController.Create(store, form, modelValid, hash, freshId, now).store;
            && Authenticates(s[freshId], form.email, form.password.value, hash)
            && (forall id | id in s && Authenticates(s[id], form.email, form.password.value, hash) :: id == freshId)
            && CurrentUserId(ClaimsFor(s[freshId])) == Some(freshId)
            && ClaimsFor(s[freshId]).role == NormalizeRole(form.role)
  {
    var s := UsersController.Create(store, form, modelValid, hash, freshId, now).store;
    LoginRoleMatchesStoredRole(s[freshId], form.role);
  }
}
