/**
 * The account forms (dendo/dendo_users/forms.py): the `clean_*` hooks as
 * functions over a snapshot of the table, and `UserEditForm` with its
 * in-place `save`. Each hook receives the value the field's own cleaning
 * produced; the framework's required-field, `EmailField` and stripping steps
 * come before and are not part of this model.
 */
module Forms {

  import opened Wrappers
  import opened Text
  import opened Patterns
  import opened Hashers
  import opened Models
  import opened UserHelper
  import Storage

  /** The validation errors the forms raise. */
  datatype FormError =
    | UsernameLooksLikeEmail
    | UsernameAlreadyTaken
    | EmailAlreadyRegistered
    | PasswordBelowMinimum
    | PasswordMismatch
    | SameAsCurrentUsername
    | UsernameUnavailable
    | OldPasswordWrong
    | NewPasswordUnchanged
    | LoginRejected

  function FormErrorMessage(e: FormError): string
  {
    match e
    case UsernameLooksLikeEmail => "Username cannot be an email address."
    case UsernameAlreadyTaken => "That username is already taken"
    case EmailAlreadyRegistered => "Email is already registered. Try logging in instead."
    case PasswordBelowMinimum => "Password must be at least 8 characters long"
    case PasswordMismatch => "Passwords do not match."
    case SameAsCurrentUsername => "This is already your current username."
    case UsernameUnavailable => "Username is already taken. Please choose another one."
    case OldPasswordWrong => "Old password is incorrect."
    case NewPasswordUnchanged => "New password cannot be the same as old password."
    case LoginRejected => "Login failed. Make sure your email/username and password are correct."
  }

  /**
   * The signup form and `create_user` word the email-shaped-username and
   * short-password refusals identically, but the taken-username messages differ.
   */
  lemma SharedMessages()
    ensures FormErrorMessage(UsernameLooksLikeEmail) == CreateErrorMessage(UsernameIsEmail)
    ensures FormErrorMessage(PasswordBelowMinimum) == CreateErrorMessage(PasswordTooShort)
    ensures FormErrorMessage(UsernameAlreadyTaken) != CreateErrorMessage(UsernameTaken)
  {
    assert FormErrorMessage(UsernameAlreadyTaken)[|FormErrorMessage(UsernameAlreadyTaken)| - 1] == 'n';
  }

  /** The `ValueError`s raised when a form is built without what it needs. */
  datatype InitError = UserRequired | PasswordHashRequired

  const PasswordMinLength: nat := 8

  /** `MinLengthValidator(limit_value=8)` */
  predicate MeetsMinLength(password: string)
  {
    |password| >= PasswordMinLength
  }

  // ---------------------------------------------------------------- SignUpForm

  /** `SignUpForm.clean_username`: the email-shape test strips, the lookup does not. */
  function SignUpCleanUsername(rows: seq<User>, username: string): (r: Result<string, FormError>)
    ensures r.Ok? <==> !LooksLikeEmail(LooseAtoz, Trim(username)) && !Taken(rows, username)
    ensures r.Ok? ==> r.value == username
    ensures r.Err? ==>
      r.error == if LooksLikeEmail(LooseAtoz, Trim(username)) then UsernameLooksLikeEmail else UsernameAlreadyTaken
  {
    if LooksLikeEmail(LooseAtoz, Trim(username)) then Err(UsernameLooksLikeEmail)
    else if GetUser(rows, username).Some? then Err(UsernameAlreadyTaken)
    else Ok(username)
  }

  /** `SignUpForm.clean_email`: the address as given must identify no account. */
  function SignUpCleanEmail(rows: seq<User>, email: string): (r: Result<string, FormError>)
    ensures r.Ok? <==> !Taken(rows, email)
    ensures r.Ok? ==> r.value == email
    ensures r.Err? ==> r.error == EmailAlreadyRegistered
  {
    if GetUser(rows, email).Some? then Err(EmailAlreadyRegistered) else Ok(email)
  }

  /** `SignUpForm.clean`: the confirmation is compared only when both passwords survived cleaning. */
  function SignUpCleanPasswords(password: Option<string>, confirm: Option<string>): (r: Option<FormError>)
    ensures r.Some? <==> Present(password) && Present(confirm) && password.value != confirm.value
    ensures r.Some? ==> r.value == PasswordMismatch
  {
    if Present(password) && Present(confirm) && password.value != confirm.value then Some(PasswordMismatch)
    else None
  }

  /**
   * All errors of a signup, in the order the form collects them: username,
   * email, password (whose failure drops it from the cleaned data), then the
   * cross-field check.
   */
  function SignUpErrors(rows: seq<User>, username: string, email: string, password: string, confirm: string)
    : (errors: seq<FormError>)
    ensures errors == [] <==>
      && !LooksLikeEmail(LooseAtoz, Trim(username)) && !Taken(rows, username)
      && !Taken(rows, email)
      && |password| >= PasswordMinLength
      && (password == confirm || confirm == "")
  {
    var u := SignUpCleanUsername(rows, username);
    var e := SignUpCleanEmail(rows, email);
    var cleanedPassword := if MeetsMinLength(password) then Some(password) else None;
    var m := SignUpCleanPasswords(cleanedPassword, Some(confirm));
    ErrorList(
      if u.Err? then Some(u.error) else None,
      if e.Err? then Some(e.error) else None,
      if MeetsMinLength(password) then None else Some(PasswordBelowMinimum),
      m)
  }

  /**
   * A password below the minimum is reported, and the confirmation is then not
   * compared, because the failed field is missing from the cleaned data.
   */
  lemma ShortPasswordReported(rows: seq<User>, username: string, email: string, password: string, confirm: string)
    requires |password| < PasswordMinLength
    ensures PasswordBelowMinimum in SignUpErrors(rows, username, email, password, confirm)
    ensures PasswordMismatch !in SignUpErrors(rows, username, email, password, confirm)
  {
    var u := SignUpCleanUsername(rows, username);
    var e := SignUpCleanEmail(rows, email);
    assert !MeetsMinLength(password);
    var first := if u.Err? then Some(u.error) else None;
    var second := if e.Err? then Some(e.error) else None;
    assert SignUpErrors(rows, username, email, password, confirm)
      == ErrorList(first, second, Some(PasswordBelowMinimum), None);
    assert first != Some(PasswordMismatch) && second != Some(PasswordMismatch);
  }

  /** A form's error list: the failed field checks in field order, then the form-wide check. */
  function ErrorList(first: Option<FormError>, second: Option<FormError>, third: Option<FormError>, form: Option<FormError>)
    : (errors: seq<FormError>)
    ensures errors == [] <==> first.None? && second.None? && third.None? && form.None?
    ensures forall x :: x in errors <==> Some(x) == first || Some(x) == second || Some(x) == third || Some(x) == form
  {
    (if first.Some? then [first.value] else [])
    + (if second.Some? then [second.value] else [])
    + (if third.Some? then [third.value] else [])
    + (if form.Some? then [form.value] else [])
  }

  /** Both identifiers of every stored account are refused at signup. */
  lemma SignUpRejectsExisting(rows: seq<User>, u: User)
    requires u in rows
    ensures SignUpCleanUsername(rows, u.username).Err?
    ensures SignUpCleanEmail(rows, u.email) == Err(EmailAlreadyRegistered)
    ensures SignUpCleanUsername(rows, u.email).Err?
    ensures SignUpCleanEmail(rows, u.username) == Err(EmailAlreadyRegistered)
  {
    assert Identifies(u, u.username) && Identifies(u, u.email);
  }

  /** A fresh username, address and matching eight-character passwords sign up cleanly. */
  lemma SignUpAcceptsNewUser()
    ensures SignUpErrors([], "newuser", "newuser@example.com", "12345678", "12345678") == []
  {
    var name := "newuser";
    assert Unpadded(name);
    assert Trim(name) == name;
    NoAtNotEmailShaped(LooseAtoz, name);
    assert SignUpCleanUsername([], name) == Ok(name);
  }

  /**
   * An email address as username is refused with the email-shape error alone
   * when the rest of the signup is acceptable.
   */
  lemma SignUpRefusesEmailUsername(rows: seq<User>, username: string, email: string, password: string)
    requires LooksLikeEmail(LooseAtoz, Trim(username))
    requires !Taken(rows, email) && |password| >= PasswordMinLength
    ensures SignUpErrors(rows, username, email, password, password) == [UsernameLooksLikeEmail]
  {
    assert SignUpCleanUsername(rows, username) == Err(UsernameLooksLikeEmail);
    assert SignUpCleanEmail(rows, email) == Ok(email);
  }

  // ---------------------------------------------------------------- LogInForm

  /**
   * `LogInForm.clean`: with both fields given, an unknown identifier and a wrong
   * password raise the same error.
   */
  function LogInClean(rows: seq<User>, usernameOrEmail: Option<string>, password: Option<string>)
    : (r: Option<FormError>)
    ensures r.Some? <==>
      Present(usernameOrEmail) && Present(password)
      && CheckCredentials(rows, usernameOrEmail.value, password.value).None?
    ensures r.Some? ==> r.value == LoginRejected
  {
    if Present(usernameOrEmail) && Present(password) then
      var user := GetUser(rows, usernameOrEmail.value);
      if user.Some? then
        if !CheckPassword(password.value, user.value.password) then Some(LoginRejected) else None
      else Some(LoginRejected)
    else None
  }

  /** An unknown identifier and a known identifier with a wrong password are indistinguishable. */
  lemma LoginFailureIndistinguishable(rows: seq<User>, unknown: string, known: string, password: string, wrong: string)
    requires unknown != "" && known != "" && password != "" && wrong != ""
    requires !Taken(rows, unknown)
    requires GetUser(rows, known).Some? && !CheckPassword(wrong, GetUser(rows, known).value.password)
    ensures LogInClean(rows, Some(unknown), Some(password)) == LogInClean(rows, Some(known), Some(wrong))
    ensures LogInClean(rows, Some(unknown), Some(password)) == Some(LoginRejected)
    ensures FormErrorMessage(LogInClean(rows, Some(known), Some(wrong)).value)
      == "Login failed. Make sure your email/username and password are correct."
  {
  }

  /** The owner's username or email with the right password passes the login form. */
  lemma LogInAcceptsOwner(rows: seq<User>, nextId: nat, u: User, password: string)
    requires TableInvariant(rows, nextId)
    requires u in rows && OwnIdentifiers(rows, u)
    requires CheckPassword(password, u.password)
    ensures LogInClean(rows, Some(u.username), Some(password)).None?
    ensures LogInClean(rows, Some(u.email), Some(password)).None?
  {
    CredentialsByOwnIdentifiers(rows, nextId, u, password);
  }

  // ------------------------------------------------------- PasswordUpdateForm

  /** A `PasswordUpdateForm` keeps the current hash it was built with. */
  datatype PasswordUpdateForm = PasswordUpdateForm(passwordHash: PasswordHash)

  /** `PasswordUpdateForm.__init__`: a missing current hash raises. */
  function NewPasswordUpdateForm(currentPasswordHash: Option<PasswordHash>): (r: Result<PasswordUpdateForm, InitError>)
    ensures r.Err? <==> currentPasswordHash.None?
    ensures r.Err? ==> r.error == PasswordHashRequired
    ensures r.Ok? ==> r.value.passwordHash == currentPasswordHash.value
  {
    if currentPasswordHash.None? then Err(PasswordHashRequired)
    else Ok(PasswordUpdateForm(currentPasswordHash.value))
  }

  /** `clean_old_password`: a given old password must verify against the current hash. */
  function CleanOldPassword(form: PasswordUpdateForm, oldPassword: Option<string>): (r: Result<Option<string>, FormError>)
    ensures r.Err? <==> Present(oldPassword) && !CheckPassword(oldPassword.value, form.passwordHash)
    ensures r.Err? ==> r.error == OldPasswordWrong
    ensures r.Ok? ==> r.value == oldPassword
  {
    if Present(oldPassword) && !CheckPassword(oldPassword.value, form.passwordHash) then Err(OldPasswordWrong)
    else Ok(oldPassword)
  }

  /** `clean_new_password`: a given new password must not verify against the current hash. */
  function CleanNewPassword(form: PasswordUpdateForm, newPassword: Option<string>): (r: Result<Option<string>, FormError>)
    ensures r.Err? <==> Present(newPassword) && CheckPassword(newPassword.value, form.passwordHash)
    ensures r.Err? ==> r.error == NewPasswordUnchanged
    ensures r.Ok? ==> r.value == newPassword
  {
    if Present(newPassword) && CheckPassword(newPassword.value, form.passwordHash) then Err(NewPasswordUnchanged)
    else Ok(newPassword)
  }

  /** All errors of a password change, in field order; the length validator runs before the hook. */
  function PasswordUpdateErrors(form: PasswordUpdateForm, oldPassword: string, newPassword: string): (errors: seq<FormError>)
    ensures errors == [] <==>
      (oldPassword == "" || CheckPassword(oldPassword, form.passwordHash))
      && |newPassword| >= PasswordMinLength && !CheckPassword(newPassword, form.passwordHash)
  {
    var o := CleanOldPassword(form, Some(oldPassword));
    var n := if MeetsMinLength(newPassword) then CleanNewPassword(form, Some(newPassword)) else Err(PasswordBelowMinimum);
    (if o.Err? then [o.error] else []) + (if n.Err? then [n.error] else [])
  }

  /**
   * A password change the form accepts proves knowledge of the current password
   * and really changes it: against a hash of `current`, the old input must be
   * `current` and the new one anything else.
   */
  lemma PasswordChangeAccepted(current: string, salt: nat, oldPassword: string, newPassword: string)
    requires oldPassword != ""
    ensures var form := PasswordUpdateForm(MakePassword(current, salt));
      PasswordUpdateErrors(form, oldPassword, newPassword) == [] <==>
        oldPassword == current && newPassword != current && |newPassword| >= PasswordMinLength
  {
  }

  /** The form's two recorded cases, for an account whose password is "12345678". */
  lemma PasswordUpdateScenarios(salt: nat)
    ensures var form := PasswordUpdateForm(MakePassword("12345678", salt));
      && PasswordUpdateErrors(form, "12345678", "newpassword") == []
      && PasswordUpdateErrors(form, "correct_password", "12345678") == [OldPasswordWrong, NewPasswordUnchanged]
  {
  }

  // ------------------------------------------------------------ UserEditForm

  /** The form's fields, in the order `save` visits them. */
  datatype Field = Banner | Avatar | Username | Bio

  const EditFields: seq<Field> := [Banner, Avatar, Username, Bio]

  function FieldIndex(f: Field): (i: nat)
    ensures i < |EditFields| && EditFields[i] == f
  {
    match f
    case Banner => 0
    case Avatar => 1
    case Username => 2
    case Bio => 3
  }

  /** A cleaned value: text for `username` and `bio`, an uploaded file's path for the images. */
  datatype Cleaned = Text(text: string) | Upload(path: Storage.Path)

  type CleanedData = map<Field, Cleaned>

  predicate IsImageField(f: Field)
  {
    f == Banner || f == Avatar
  }

  /** Image fields hold uploads and text fields hold text. */
  predicate WellTyped(data: CleanedData)
  {
    forall f :: f in data ==> (data[f].Upload? <==> IsImageField(f))
  }

  /** `field_value in [None, '']` */
  predicate IsBlank(data: CleanedData, f: Field)
  {
    f !in data || data[f] == Text("")
  }

  predicate AllBlank(data: CleanedData)
  {
    forall f :: IsBlank(data, f)
  }

  function ValueOf(c: Cleaned): string
  {
    match c
    case Text(t) => t
    case Upload(p) => p
  }

  /** The cleaned `username` as `clean_username` sees it. */
  function UsernameInput(data: CleanedData): Option<string>
  {
    if Username in data then Some(ValueOf(data[Username])) else None
  }

  /** `getattr(user, field)` for an image field. */
  function ImageOf(u: User, f: Field): Option<Storage.Path>
  {
    if f == Banner then u.banner else u.avatar
  }

  /** `setattr(user, field, value)` */
  function Assign(u: User, f: Field, v: Cleaned): User
  {
    match f
    case Banner => u.(banner := Some(ValueOf(v)))
    case Avatar => u.(avatar := Some(ValueOf(v)))
    case Username => u.(username := ValueOf(v))
    case Bio => u.(bio := ValueOf(v))
  }

  /**
   * The profile once the first `n` fields are processed: each of them that is
   * not blank carries its cleaned value; every other column is `u`'s.
   */
  function EditedOn(u: User, data: CleanedData, n: nat): (r: User)
    ensures r.id == u.id && r.email == u.email && r.password == u.password && r.isVerified == u.isVerified
  {
    u.(banner := if FieldIndex(Banner) < n && !IsBlank(data, Banner) then Some(ValueOf(data[Banner])) else u.banner,
       avatar := if FieldIndex(Avatar) < n && !IsBlank(data, Avatar) then Some(ValueOf(data[Avatar])) else u.avatar,
       username := if FieldIndex(Username) < n && !IsBlank(data, Username) then ValueOf(data[Username]) else u.username,
       bio := if FieldIndex(Bio) < n && !IsBlank(data, Bio) then ValueOf(data[Bio]) else u.bio)
  }

  /** The old image of field `f` is deleted: a new non-blank upload for it arrived and an image is set. */
  predicate Replaces(u: User, data: CleanedData, files: set<Field>, f: Field)
  {
    IsImageField(f) && !IsBlank(data, f) && f in files && HasImage(ImageOf(u, f))
  }

  /** The files deleted once the first `n` fields are processed. */
  function ReplacedOn(u: User, data: CleanedData, files: set<Field>, n: nat): set<Storage.Path>
  {
    (if FieldIndex(Banner) < n && Replaces(u, data, files, Banner) then {u.banner.value} else {})
    + (if FieldIndex(Avatar) < n && Replaces(u, data, files, Avatar) then {u.avatar.value} else {})
  }

  /**
   * Processing field `i` sets only that field's column, and only when its value
   * is not blank; the old image of that field is still the original one then.
   */
  lemma EditStep(u: User, data: CleanedData, files: set<Field>, i: nat)
    requires i < |EditFields|
    ensures var f := EditFields[i];
      && EditedOn(u, data, i + 1)
         == (if IsBlank(data, f) then EditedOn(u, data, i) else Assign(EditedOn(u, data, i), f, data[f]))
      && (IsImageField(f) ==> ImageOf(EditedOn(u, data, i), f) == ImageOf(u, f))
      && ReplacedOn(u, data, files, i + 1)
         == ReplacedOn(u, data, files, i) + (if Replaces(u, data, files, f) then {ImageOf(u, f).value} else {})
  {
    assert FieldIndex(EditFields[i]) == i;
  }

  /** A form is all blank iff each edited field in turn is blank. */
  lemma AllBlankOverFields(data: CleanedData)
    ensures AllBlank(data) <==> forall j :: 0 <= j < |EditFields| ==> IsBlank(data, EditFields[j])
  {
    if forall j :: 0 <= j < |EditFields| ==> IsBlank(data, EditFields[j]) {
      forall f ensures IsBlank(data, f) {
        var j := FieldIndex(f);
        assert IsBlank(data, EditFields[j]);
      }
    }
  }

  /** An all-blank form changes no column and deletes no file. */
  lemma AllBlankIsNoOp(u: User, data: CleanedData, files: set<Field>)
    requires AllBlank(data)
    ensures EditedOn(u, data, |EditFields|) == u
    ensures ReplacedOn(u, data, files, |EditFields|) == {}
  {
    assert IsBlank(data, Banner) && IsBlank(data, Avatar) && IsBlank(data, Username) && IsBlank(data, Bio);
  }

  /**
   * `UserEditForm.clean_username`: an empty username is accepted; otherwise,
   * in order, it must not be email-shaped (`[a-zA-Z]`), must not be the current
   * username and must not identify an account.
   */
  function EditCleanUsername(rows: seq<User>, current: User, username: Option<string>): (r: Result<Option<string>, FormError>)
    ensures r.Ok? ==> r.value == username
    ensures !Present(username) ==> r.Ok?
    ensures Present(username) && LooksLikeEmail(AsciiLetters, Trim(username.value)) ==>
      r == Err(UsernameLooksLikeEmail)
    ensures (Present(username) && !LooksLikeEmail(AsciiLetters, Trim(username.value))
             && username.value == current.username) ==> r == Err(SameAsCurrentUsername)
    ensures (Present(username) && !LooksLikeEmail(AsciiLetters, Trim(username.value))
             && username.value != current.username && Taken(rows, username.value)) ==> r == Err(UsernameUnavailable)
    ensures r.Ok? <==>
      || !Present(username)
      || (&& !LooksLikeEmail(AsciiLetters, Trim(username.value))
          && username.value != current.username
          && !Taken(rows, username.value))
    ensures Present(username) && r.Ok? ==>
      && !IsEmailShape(AsciiLetters, username.value)
      && forall u :: u in rows ==> u.username != username.value && u.email != username.value
  {
    if Present(username) then
      var name := username.value;
      if LooksLikeEmail(AsciiLetters, Trim(name)) then Err(UsernameLooksLikeEmail)
      else if name == current.username then Err(SameAsCurrentUsername)
      else if GetUser(rows, name).Some? then Err(UsernameUnavailable)
      else
        assert !IsEmailShape(AsciiLetters, name) by {
          if IsEmailShape(AsciiLetters, name) { ShapeSurvivesStrip(AsciiLetters, name); }
        }
        Ok(username)
    else Ok(username)
  }

  /**
   * The letter classes differ between signup and profile edit: a username that
   * signup refuses as email-shaped is accepted by the profile edit.
   */
  lemma EditAdmitsWhatSignUpRefuses(current: User)
    requires current.username != "x@y.z_"
    ensures SignUpCleanUsername([], "x@y.z_") == Err(UsernameLooksLikeEmail)
    ensures EditCleanUsername([], current, Some("x@y.z_")) == Ok(Some("x@y.z_"))
  {
    var s := "x@y.z_";
    assert Unpadded(s);
    assert Trim(s) == s;
    LooseAdmitsMore();
    assert !Taken([], s);
  }

  /** A profile-edit form: the account being edited, the cleaned data and the names of the uploaded files. */
  class UserEditForm {
    var user: User
    const data: CleanedData
    const files: set<Field>

    constructor(user: User, data: CleanedData, files: set<Field>)
      ensures this.user == user && this.data == data && this.files == files
    {
      this.user := user;
      this.data := data;
      this.files := files;
    }

    /**
     * `save`: visit banner, avatar, username and bio; skip blank values; before
     * overwriting an image with a new upload delete the old file; write the row
     * only when committing and at least one field was set.
     */
    method Save(table: UserTable, storage: Storage.FileStorage, commit: bool) returns (profile: User)
      requires table.Valid()
      requires user in table.rows
      requires WellTyped(data)
      requires EditCleanUsername(table.rows, user, UsernameInput(data)).Ok?
      modifies this, table, storage
      ensures profile == user && user == EditedOn(old(user), data, |EditFields|)
      ensures storage.files == old(storage.files) - ReplacedOn(old(user), data, files, |EditFields|)
      ensures table.rows == if commit && !AllBlank(data) then Replace(old(table.rows), user) else old(table.rows)
      ensures table.nextId == old(table.nextId)
      ensures table.Valid()
    {
      var dataChanged := 0;
      for i := 0 to |EditFields|
        modifies this, storage
        invariant user == EditedOn(old(user), data, i)
        invariant storage.files == old(storage.files) - ReplacedOn(old(user), data, files, i)
        invariant dataChanged == 0 <==> forall j :: 0 <= j < i ==> IsBlank(data, EditFields[j])
      {
        var field := EditFields[i];
        EditStep(old(user), data, files, i);
        if IsBlank(data, field) {
          continue;
        }
        if IsImageField(field) && field in files {
          var currentImage := ImageOf(user, field);
          if HasImage(currentImage) {
            storage.Delete(currentImage.value);
          }
        }
        user := Assign(user, field, data[field]);
        dataChanged := dataChanged + 1;
      }
      AllBlankOverFields(data);
      if commit && dataChanged > 0 {
        SavedProfileFits(table.rows, table.nextId, old(user), data);
        table.Save(user);
      }
      profile := user;
    }
  }

  /** The edited username is the old one or the cleaned, non-empty input. */
  lemma EditedUsernameSource(u: User, data: CleanedData)
    requires WellTyped(data)
    ensures var v := EditedOn(u, data, |EditFields|);
      v.username == u.username || (Present(UsernameInput(data)) && v.username == UsernameInput(data).value)
  {
    if !IsBlank(data, Username) {
      assert data[Username].Text?;
    }
  }

  /** The edited profile can be written back: it keeps its key and its username stays unique. */
  lemma SavedProfileFits(rows: seq<User>, nextId: nat, u: User, data: CleanedData)
    requires TableInvariant(rows, nextId)
    requires u in rows
    requires WellTyped(data)
    requires EditCleanUsername(rows, u, UsernameInput(data)).Ok?
    ensures HasRow(rows, u.id)
    ensures FitsUnique(rows, EditedOn(u, data, |EditFields|))
  {
    var v := EditedOn(u, data, |EditFields|);
    EditedUsernameSource(u, data);
    var k :| 0 <= k < |rows| && rows[k] == u;
    forall r | r in rows && r.id != v.id
      ensures r.username != v.username && r.email != v.email
    {
      var i :| 0 <= i < |rows| && rows[i] == r;
      assert i != k;
    }
  }

  /** Saving the edited profile keeps every stored username out of email shape (`[a-zA-Z]`). */
  lemma SavedProfileKeepsNoEmailShaped(rows: seq<User>, u: User, data: CleanedData)
    requires u in rows
    requires WellTyped(data)
    requires EditCleanUsername(rows, u, UsernameInput(data)).Ok?
    requires NoEmailShapedUsername(rows, AsciiLetters)
    ensures NoEmailShapedUsername(Replace(rows, EditedOn(u, data, |EditFields|)), AsciiLetters)
  {
    var v := EditedOn(u, data, |EditFields|);
    EditedUsernameSource(u, data);
    assert !IsEmailShape(AsciiLetters, v.username);
    forall r | r in Replace(rows, v) ensures !IsEmailShape(AsciiLetters, r.username) {
      var i :| 0 <= i < |rows| && Replace(rows, v)[i] == r;
      assert rows[i] in rows;
    }
  }

  /** Saving the edited profile keeps every account's identifiers its own. */
  lemma SavedProfileKeepsCrossUnique(rows: seq<User>, u: User, data: CleanedData)
    requires u in rows
    requires WellTyped(data)
    requires EditCleanUsername(rows, u, UsernameInput(data)).Ok?
    requires CrossUnique(rows)
    ensures CrossUnique(Replace(rows, EditedOn(u, data, |EditFields|)))
  {
    var v := EditedOn(u, data, |EditFields|);
    EditedUsernameSource(u, data);
    ReplaceKeepsCrossUnique(rows, u, v);
  }

  /** `UserEditForm.__init__`: building the form without an account raises. */
  method NewUserEditForm(user: Option<User>, data: CleanedData, files: set<Field>)
    returns (r: Result<UserEditForm, InitError>)
    ensures r.Err? <==> user.None?
    ensures r.Err? ==> r.error == UserRequired
    ensures r.Ok? ==> fresh(r.value) && r.value.user == user.value && r.value.data == data && r.value.files == files
  {
    if user.None? {
      return Err(UserRequired);
    }
    var form := new UserEditForm(user.value, data, files);
    return Ok(form);
  }
}
