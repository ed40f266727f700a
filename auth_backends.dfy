/**
 * `UsernameOrEmailBackend.authenticate` (dendo/dendo_users/auth_backends.py):
 * lookup by username or email, then password verification; any exception
 * raised on the way is swallowed and reads as "no match". Whether the store or
 * the hasher raised during the call is the parameter `raised`.
 */
module AuthBackends {

  import opened Wrappers
  import opened Hashers
  import opened Models
  import opened UserHelper

  /**
   * A missing `username` looks up `IS NULL`, which no stored account matches;
   * a missing `password` never verifies.
   */
  function Authenticate(rows: seq<User>, username: Option<string>, password: Option<string>, raised: bool)
    : (r: Option<User>)
    ensures raised || username.None? ==> r.None?
    ensures r.Some? <==>
      !raised && username.Some?
      && exists i :: FirstMatch(rows, username.value, i) && Verifies(password, rows[i].password)
    ensures r.Some? ==>
      && r.value in rows && Identifies(r.value, username.value) && Verifies(password, r.value.password)
      && r == CheckCredentials(rows, username.value, password.value)
  {
    if raised || username.None? then None
    else
      var user := GetUser(rows, username.value);
      assert forall i, j :: FirstMatch(rows, username.value, i) && FirstMatch(rows, username.value, j) ==> i == j;
      if user.Some? && Verifies(password, user.value.password) then user else None
  }

  /** The same account is returned whether it is named by username or by email. */
  lemma SameAccountByUsernameOrEmail(rows: seq<User>, nextId: nat, u: User, password: string)
    requires TableInvariant(rows, nextId)
    requires u in rows && OwnIdentifiers(rows, u)
    requires CheckPassword(password, u.password)
    ensures Authenticate(rows, Some(u.username), Some(password), false) == Some(u)
    ensures Authenticate(rows, Some(u.email), Some(password), false) == Some(u)
  {
    LookupByOwnIdentifiers(rows, nextId, u);
  }

  /** Empty credentials authenticate nobody when no stored hash accepts the empty password. */
  lemma EmptyCredentialsRejected(rows: seq<User>, raised: bool)
    requires EmptyPasswordRejected(rows)
    ensures Authenticate(rows, Some(""), Some(""), raised).None?
  {
    var user := GetUser(rows, "");
    if user.Some? {
      assert user.value in rows;
    }
  }
}
