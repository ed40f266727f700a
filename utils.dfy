/**
 * `UserHelper` (dendo/dendo_users/utils.py): the username-or-email lookup and the
 * account operations built on it. The request is reduced to the session it
 * logs into.
 */
module UserHelper {

  import opened Wrappers
  import opened Text
  import opened Patterns
  import opened Hashers
  import opened Models

  /** The lookup filter `Q(email=value) | Q(username=value)`. */
  predicate Identifies(u: User, value: string)
  {
    u.email == value || u.username == value
  }

  /** Some stored account is identified by `value`. */
  ghost predicate Taken(rows: seq<User>, value: string)
  {
    exists u :: u in rows && Identifies(u, value)
  }

  /** Row `i` is the first row, in key order, identified by `value`. */
  ghost predicate FirstMatch(rows: seq<User>, value: string, i: int)
  {
    0 <= i < |rows| && Identifies(rows[i], value) && forall j :: 0 <= j < i ==> !Identifies(rows[j], value)
  }

  /** `get_user(value)`: the first account whose email or username equals `value`, if any. */
  function GetUser(rows: seq<User>, value: string): (r: Option<User>)
    ensures r.None? <==> !Taken(rows, value)
    ensures r.Some? ==> r.value in rows && Identifies(r.value, value)
    ensures r.Some? ==> exists i :: FirstMatch(rows, value, i) && rows[i] == r.value
  {
    if |rows| == 0 then None
    else if Identifies(rows[0], value) then
      assert FirstMatch(rows, value, 0);
      Some(rows[0])
    else
      var r := GetUser(rows[1..], value);
      assert r.Some? ==> exists i :: FirstMatch(rows, value, i) && rows[i] == r.value by {
        if r.Some? {
          var i :| FirstMatch(rows[1..], value, i) && rows[1..][i] == r.value;
          assert FirstMatch(rows, value, i + 1);
        }
      }
      assert r.None? ==> !Taken(rows, value) by {
        if r.None? {
          forall u | u in rows ensures !Identifies(u, value) {
            var i :| 0 <= i < |rows| && rows[i] == u;
            if i > 0 { assert rows[1..][i - 1] == u; }
          }
        }
      }
      r
  }

  /** The first identified row is the one `get_user` returns. */
  lemma FirstMatchIsFound(rows: seq<User>, value: string, i: int)
    requires FirstMatch(rows, value, i)
    ensures GetUser(rows, value) == Some(rows[i])
  {
    assert rows[i] in rows;
    var r := GetUser(rows, value);
    assert r.Some?;
    var j :| FirstMatch(rows, value, j) && rows[j] == r.value;
    assert 0 <= j < |rows| && Identifies(rows[j], value);
    assert forall k :: 0 <= k < j ==> !Identifies(rows[k], value);
    assert !(i < j);
    assert !(j < i);
  }

  /** No other account uses `u`'s username as its email or `u`'s email as its username. */
  ghost predicate OwnIdentifiers(rows: seq<User>, u: User)
  {
    forall r :: r in rows && r != u ==> r.username != u.email && r.email != u.username
  }

  /** Every account owns its identifiers: no other account uses them crosswise. */
  ghost predicate CrossUnique(rows: seq<User>)
  {
    forall u :: u in rows ==> OwnIdentifiers(rows, u)
  }

  /**
   * In a valid table, an account whose identifiers no other account shares is
   * found both by its username and by its email.
   */
  lemma LookupByOwnIdentifiers(rows: seq<User>, nextId: nat, u: User)
    requires TableInvariant(rows, nextId)
    requires u in rows
    requires OwnIdentifiers(rows, u)
    ensures GetUser(rows, u.username) == Some(u)
    ensures GetUser(rows, u.email) == Some(u)
  {
    var k :| 0 <= k < |rows| && rows[k] == u;
    forall j | 0 <= j < k
      ensures !Identifies(rows[j], u.username) && !Identifies(rows[j], u.email)
    {
      assert rows[j].id < rows[k].id;
      assert rows[j] in rows;
    }
    FirstMatchIsFound(rows, u.username, k);
    FirstMatchIsFound(rows, u.email, k);
  }

  /**
   * Lookup plus password verification, shared by `login_user`, the login form
   * and the authentication backend: the first account identified by
   * `identifier`, provided `password` verifies against its hash.
   */
  function CheckCredentials(rows: seq<User>, identifier: string, password: string): (r: Option<User>)
    ensures r.Some? <==> exists i :: FirstMatch(rows, identifier, i) && CheckPassword(password, rows[i].password)
    ensures r.Some? ==> r.value in rows && Identifies(r.value, identifier) && CheckPassword(password, r.value.password)
    ensures r.Some? ==> Some(r.value) == GetUser(rows, identifier)
  {
    var user := GetUser(rows, identifier);
    assert forall i, j :: FirstMatch(rows, identifier, i) && FirstMatch(rows, identifier, j) ==> i == j;
    if user.Some? && CheckPassword(password, user.value.password) then user else None
  }

  /**
   * Logging in by username or by email reaches the same account, and succeeds
   * exactly when the password verifies against that account's hash.
   */
  lemma CredentialsByOwnIdentifiers(rows: seq<User>, nextId: nat, u: User, password: string)
    requires TableInvariant(rows, nextId)
    requires u in rows
    requires OwnIdentifiers(rows, u)
    ensures CheckCredentials(rows, u.username, password) == CheckCredentials(rows, u.email, password)
    ensures CheckCredentials(rows, u.username, password) == if CheckPassword(password, u.password) then Some(u) else None
  {
    LookupByOwnIdentifiers(rows, nextId, u);
  }

  /** The request's session: the key of the logged-in account, if any. */
  class Session {
    var user: Option<nat>

    constructor(user: Option<nat>)
      ensures this.user == user
    {
      this.user := user;
    }
  }

  /** `login_user`: log the looked-up account in when the password verifies. */
  method LoginUser(table: UserTable, session: Session, usernameOrEmail: string, password: string)
    returns (r: Option<User>)
    modifies session
    ensures r == CheckCredentials(table.rows, usernameOrEmail, password)
    ensures session.user == if r.Some? then Some(r.value.id) else old(session.user)
  {
    var user := GetUser(table.rows, usernameOrEmail);
    if user.Some? && CheckPassword(password, user.value.password) {
      session.user := Some(user.value.id);
      return user;
    }
    return None;
  }

  /** The errors `create_user` raises. */
  datatype CreateError = UsernameIsEmail | UsernameTaken | EmailInUse | PasswordTooShort | UsernameNotSet

  function CreateErrorMessage(e: CreateError): string
  {
    match e
    case UsernameIsEmail => "Username cannot be an email address."
    case UsernameTaken => "That username is already taken."
    case EmailInUse => "Email is already in use."
    case PasswordTooShort => "Password must be at least 8 characters long"
    case UsernameNotSet => "The given username must be set"
  }

  /** `email.strip().lower()` */
  function NormalizedEmail(email: string): (r: string)
    ensures Unpadded(r) && |r| <= |email|
    ensures forall i :: 0 <= i < |r| ==> !IsAsciiUpper(r[i])
  {
    LowerKeepsUnpadded(Trim(email));
    Lower(Trim(email))
  }

  /**
   * The checks of `create_user`, in order; the first that fails is reported.
   * The last one, an empty username, is raised by the framework's user manager.
   */
  function CreateUserCheck(rows: seq<User>, username: string, email: string, password: string): Option<CreateError>
  {
    var name := Trim(username);
    if LooksLikeEmail(LooseAtoz, name) then Some(UsernameIsEmail)
    else if GetUser(rows, name).Some? then Some(UsernameTaken)
    else if GetUser(rows, NormalizedEmail(email)).Some? then Some(EmailInUse)
    else if !MatchesAtLeastEight(password) then Some(PasswordTooShort)
    else if name == "" then Some(UsernameNotSet)
    else None
  }

  /**
   * Each outcome of the checks, stated against the stored accounts and the
   * patterns' meaning: an error is reported exactly when its check fails and
   * every earlier one passed.
   */
  lemma CreateUserCheckOrder(rows: seq<User>, username: string, email: string, password: string)
    ensures var r := CreateUserCheck(rows, username, email, password);
      && (r == Some(UsernameIsEmail) <==> LooksLikeEmail(LooseAtoz, Trim(username)))
      && (r == Some(UsernameTaken) <==>
           !LooksLikeEmail(LooseAtoz, Trim(username)) && Taken(rows, Trim(username)))
      && (r == Some(EmailInUse) <==>
           !LooksLikeEmail(LooseAtoz, Trim(username)) && !Taken(rows, Trim(username))
           && Taken(rows, NormalizedEmail(email)))
      && (r == Some(PasswordTooShort) <==>
           !LooksLikeEmail(LooseAtoz, Trim(username)) && !Taken(rows, Trim(username))
           && !Taken(rows, NormalizedEmail(email)) && !(exists n :: AtLeastEightAt(password, n)))
      && (r.None? <==>
           !LooksLikeEmail(LooseAtoz, Trim(username)) && !Taken(rows, Trim(username))
           && !Taken(rows, NormalizedEmail(email)) && (exists n :: AtLeastEightAt(password, n))
           && Trim(username) != "")
  {
    MatchesAtLeastEightSpec(password);
  }

  /** Any password shorter than eight characters is refused. */
  lemma ShortPasswordNeverCreates(rows: seq<User>, username: string, email: string, password: string)
    requires |password| < 8
    ensures CreateUserCheck(rows, username, email, password).Some?
  {
    CreateUserCheckOrder(rows, username, email, password);
    MatchesAtLeastEightSpec(password);
    ShortFailsAtLeastEight(password);
  }

  /** The row `create_user` appends. */
  function CreatedUser(id: nat, username: string, email: string, password: string, salt: nat): (u: User)
    ensures u.username == Trim(username) && u.email == NormalizedEmail(email)
    ensures CheckPassword(password, u.password)
    ensures u.bio == DefaultBio && !u.isVerified
  {
    NewUser(id, Trim(username), NormalizedEmail(email), MakePassword(password, salt))
  }

  /** No stored username has the shape of an email address (for the given letter class). */
  ghost predicate NoEmailShapedUsername(rows: seq<User>, cls: LetterClass)
  {
    forall u :: u in rows ==> !IsEmailShape(cls, u.username)
  }

  /** No stored hash accepts the empty password. */
  ghost predicate EmptyPasswordRejected(rows: seq<User>)
  {
    forall u :: u in rows ==> !CheckPassword("", u.password)
  }

  /**
   * A username that equals its own stripped form logs in as the account just
   * created: no older account is identified by it, and the new one is.
   */
  lemma CreatedUserLogsIn(rows: seq<User>, id: nat, username: string, email: string, password: string, salt: nat)
    requires CreateUserCheck(rows, username, email, password).None?
    requires username == Trim(username)
    ensures CheckCredentials(rows + [CreatedUser(id, username, email, password, salt)], username, password)
      == Some(CreatedUser(id, username, email, password, salt))
  {
    assert !Taken(rows, username) by {
      CreateUserCheckOrder(rows, username, email, password);
    }
    var u := CreatedUser(id, username, email, password, salt);
    var all := rows + [u];
    assert FirstMatch(all, username, |rows|) by {
      forall j | 0 <= j < |rows| ensures !Identifies(all[j], username) {
        assert all[j] in rows;
      }
    }
    FirstMatchIsFound(all, username, |rows|);
  }

  /**
   * Because the final login uses the unstripped username, a username with
   * surrounding whitespace that identifies no older account leaves the new
   * account created but not logged in.
   */
  lemma PaddedUsernameNotLoggedIn(rows: seq<User>, id: nat, username: string, email: string, password: string, salt: nat)
    requires username != Trim(username)
    requires !Taken(rows, username)
    ensures CheckCredentials(rows + [CreatedUser(id, username, email, password, salt)], username, password).None?
  {
    var u := CreatedUser(id, username, email, password, salt);
    assert !Unpadded(username);
    assert u.username != username && u.email != username;
    var all := rows + [u];
    assert !Taken(all, username) by {
      forall r | r in all ensures !Identifies(r, username) {
        if r != u { assert r in rows; }
      }
    }
    var found := GetUser(all, username);
    assert found.None?;
  }

  /**
   * `create_user`: on any failed check raise and change nothing; otherwise append
   * the account (username stripped, email stripped and lower-cased, password
   * hashed) and log in with the username exactly as given. What the appended
   * row means for later logins and for the stored accounts is stated by
   * `CreatedUserLogsIn`, `PaddedUsernameNotLoggedIn` and `CreationKeepsInvariants`.
   */
  method CreateUser(table: UserTable, session: Session, username: string, email: string, password: string, salt: nat)
    returns (r: Result<Option<User>, CreateError>)
    requires table.Valid()
    modifies table, session
    ensures table.Valid()
    ensures r.Err? <==> CreateUserCheck(old(table.rows), username, email, password).Some?
    ensures r.Err? ==> Some(r.error) == CreateUserCheck(old(table.rows), username, email, password)
    ensures r.Err? ==> table.rows == old(table.rows) && table.nextId == old(table.nextId) && session.user == old(session.user)
    ensures r.Ok? ==> table.rows == old(table.rows) + [CreatedUser(old(table.nextId), username, email, password, salt)]
    ensures r.Ok? ==> table.nextId == old(table.nextId) + 1
    ensures r.Ok? ==> r.value == CheckCredentials(table.rows, username, password)
    ensures r.Ok? ==> session.user == if r.value.Some? then Some(r.value.value.id) else old(session.user)
  {
    var check := CreateUserCheck(table.rows, username, email, password);
    if check.Some? {
      return Err(check.value);
    }
    PassedChecksAdmitRow(table.rows, table.nextId, username, email, password, salt);
    var created := table.Insert(Trim(username), NormalizedEmail(email), MakePassword(password, salt));
    var user := LoginUser(table, session, username, password);
    return Ok(user);
  }

  /**
   * A row that passed every check fits the table's uniqueness constraints, has
   * a username of no email shape and a hash that refuses the empty password.
   */
  lemma PassedChecksAdmitRow(rows: seq<User>, id: nat, username: string, email: string, password: string, salt: nat)
    requires CreateUserCheck(rows, username, email, password).None?
    ensures var u := CreatedUser(id, username, email, password, salt);
      && (forall r :: r in rows ==> r.username != u.username && r.email != u.email)
      && (forall r :: r in rows ==> r.username != u.email && r.email != u.username)
      && !IsEmailShape(LooseAtoz, u.username) && !IsEmailShape(AsciiLetters, u.username)
      && !CheckPassword("", u.password)
  {
    CreateUserCheckOrder(rows, username, email, password);
    var name := Trim(username);
    LooksLikeEmailUnpadded(LooseAtoz, name);
    StrictShapeIsLooseShape(name);
    LooksLikeEmailUnpadded(AsciiLetters, name);
    MatchesAtLeastEightSpec(password);
    assert password != "";
  }

  /** Appending an account whose username has no email shape and whose hash refuses "" keeps both properties. */
  lemma AppendKeepsInvariants(rows: seq<User>, u: User)
    ensures NoEmailShapedUsername(rows, LooseAtoz) && !IsEmailShape(LooseAtoz, u.username) ==>
      NoEmailShapedUsername(rows + [u], LooseAtoz)
    ensures NoEmailShapedUsername(rows, AsciiLetters) && !IsEmailShape(AsciiLetters, u.username) ==>
      NoEmailShapedUsername(rows + [u], AsciiLetters)
    ensures EmptyPasswordRejected(rows) && !CheckPassword("", u.password) ==> EmptyPasswordRejected(rows + [u])
  {
    forall r | r in rows + [u] ensures r in rows || r == u { }
  }

  /** Appending an account none of whose identifiers an older account uses crosswise keeps `CrossUnique`. */
  lemma AppendKeepsCrossUnique(rows: seq<User>, u: User)
    requires CrossUnique(rows)
    requires forall r :: r in rows ==> r.username != u.email && r.email != u.username
    ensures CrossUnique(rows + [u])
  {
    var all := rows + [u];
    forall w | w in all ensures OwnIdentifiers(all, w) {
      forall r | r in all && r != w ensures r.username != w.email && r.email != w.username {
        assert r in rows || r == u;
        assert w in rows || w == u;
        if w != u && r != u {
          assert OwnIdentifiers(rows, w);
        }
      }
    }
  }

  /**
   * Accounts created only through `create_user` never have an email-shaped
   * username (under either letter class) and never accept the empty password.
   */
  lemma CreationKeepsInvariants(rows: seq<User>, id: nat, username: string, email: string, password: string, salt: nat)
    requires CreateUserCheck(rows, username, email, password).None?
    ensures var all := rows + [CreatedUser(id, username, email, password, salt)];
      && (NoEmailShapedUsername(rows, LooseAtoz) ==> NoEmailShapedUsername(all, LooseAtoz))
      && (NoEmailShapedUsername(rows, AsciiLetters) ==> NoEmailShapedUsername(all, AsciiLetters))
      && (EmptyPasswordRejected(rows) ==> EmptyPasswordRejected(all))
      && (CrossUnique(rows) ==> CrossUnique(all))
  {
    var u := CreatedUser(id, username, email, password, salt);
    PassedChecksAdmitRow(rows, id, username, email, password, salt);
    AppendKeepsInvariants(rows, u);
    if CrossUnique(rows) {
      AppendKeepsCrossUnique(rows, u);
    }
  }

  /**
   * Overwriting account `u` with `v`, which keeps its key and email and either
   * keeps its username or takes one that identifies nobody, keeps `CrossUnique`.
   */
  lemma ReplaceKeepsCrossUnique(rows: seq<User>, u: User, v: User)
    requires CrossUnique(rows)
    requires u in rows
    requires v.id == u.id && v.email == u.email
    requires v.username == u.username || !Taken(rows, v.username)
    ensures CrossUnique(Replace(rows, v))
  {
    var all := Replace(rows, v);
    assert OwnIdentifiers(rows, u);
    forall x | x in all ensures x == v || (x in rows && x.id != v.id) {
      var i :| 0 <= i < |all| && all[i] == x;
      assert rows[i] in rows;
    }
    forall w | w in all ensures OwnIdentifiers(all, w) {
      forall r | r in all && r != w ensures r.username != w.email && r.email != w.username {
        if w != v && r != v {
          assert OwnIdentifiers(rows, w);
        } else if w == v {
          assert r in rows && r != u;
          assert !Identifies(r, v.username) || v.username == u.username;
        } else {
          assert w in rows && w != u;
          assert !Identifies(w, v.username) || v.username == u.username;
        }
      }
    }
  }

  /**
   * `update_password`: with an account and a non-empty new password, store a hash
   * of the new password and save; otherwise return `None` and change nothing.
   */
  method UpdatePassword(table: UserTable, user: Option<User>, newPassword: Option<string>, salt: nat)
    returns (r: Option<User>)
    requires table.Valid()
    requires user.Some? ==> user.value in table.rows
    modifies table
    ensures table.Valid()
    ensures r.Some? <==> user.Some? && Present(newPassword)
    ensures r.None? ==> table.rows == old(table.rows)
    ensures r.Some? ==> r.value == user.value.(password := MakePassword(newPassword.value, salt))
    ensures r.Some? ==> table.rows == Replace(old(table.rows), r.value) && r.value in table.rows
    ensures table.nextId == old(table.nextId)
    ensures EmptyPasswordRejected(old(table.rows)) ==> EmptyPasswordRejected(table.rows)
    ensures CrossUnique(old(table.rows)) ==> CrossUnique(table.rows)
  {
    if user.Some? && Present(newPassword) {
      var current := user.value.(password := MakePassword(newPassword.value, salt));
      assert HasRow(table.rows, current.id) && FitsUnique(table.rows, current) by {
        var k :| 0 <= k < |table.rows| && table.rows[k] == user.value;
        forall r | r in table.rows && r.id != current.id
          ensures r.username != current.username && r.email != current.email
        {
          var i :| 0 <= i < |table.rows| && table.rows[i] == r;
          assert i != k;
        }
      }
      if CrossUnique(table.rows) {
        ReplaceKeepsCrossUnique(table.rows, user.value, current);
      }
      table.Save(current);
      assert forall u :: u in table.rows ==> u == current || u in old(table.rows);
      return Some(current);
    }
    return None;
  }

  /**
   * After a password update, logging in with the account's username or email
   * succeeds with the new password and with no other.
   */
  lemma UpdatedPasswordLogsIn(rows: seq<User>, nextId: nat, u: User, newPassword: string, salt: nat, attempt: string)
    requires TableInvariant(rows, nextId)
    requires u in rows
    requires OwnIdentifiers(rows, u)
    ensures var v := u.(password := MakePassword(newPassword, salt));
      && CheckCredentials(Replace(rows, v), u.username, attempt) == CheckCredentials(Replace(rows, v), u.email, attempt)
      && (CheckCredentials(Replace(rows, v), u.username, attempt).Some? <==> attempt == newPassword)
  {
    var v := u.(password := MakePassword(newPassword, salt));
    var rows' := Replace(rows, v);
    var k :| 0 <= k < |rows| && rows[k] == u;
    assert HasRow(rows, v.id);
    assert FitsUnique(rows, v) by {
      forall r | r in rows && r.id != v.id ensures r.username != v.username && r.email != v.email {
        var i :| 0 <= i < |rows| && rows[i] == r;
        assert i != k;
      }
    }
    ReplaceKeepsInvariant(rows, nextId, v);
    assert OwnIdentifiers(rows', v) by {
      forall r | r in rows' && r != v ensures r.username != v.email && r.email != v.username {
        var i :| 0 <= i < |rows'| && rows'[i] == r;
        assert rows[i].id != u.id;
        assert rows[i] == r;
        assert r in rows && r != u;
      }
    }
    CredentialsByOwnIdentifiers(rows', nextId, v, attempt);
  }

  /**
   * The profile views' gate `request.user == get_user(username)`, which compares
   * primary keys.
   */
  predicate PassesOwnerGate(rows: seq<User>, requestUser: User, segment: string)
  {
    var found := GetUser(rows, segment);
    found.Some? && found.value.id == requestUser.id
  }

  /** Since lookup also matches email, the gate admits the owner by username and by email. */
  lemma OwnerGateAdmitsEmail(rows: seq<User>, nextId: nat, u: User)
    requires TableInvariant(rows, nextId)
    requires u in rows
    requires OwnIdentifiers(rows, u)
    ensures PassesOwnerGate(rows, u, u.username)
    ensures PassesOwnerGate(rows, u, u.email)
  {
    LookupByOwnIdentifiers(rows, nextId, u);
  }
}
