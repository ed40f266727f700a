# DenDo user accounts, modelled in Dafny

DenDo's `dendo_users` app keeps user accounts (`CustomUser`: username, email,
password hash, bio, verification flag, optional avatar and banner). One lookup
finds an account by username *or* email. The operations built on it are:

- `UserHelper.create_user`, `login_user` and `update_password`;
- the signup, login, password-change and profile-edit forms;
- the username-or-email authentication backend;
- a post-delete hook that removes the account's images.

This project models that core. The account store is a sequence of rows in
primary-key order (`Models.UserTable`), with a ghost invariant:

- keys ascend;
- usernames are unique;
- emails are unique.

The state-changing parts are classes whose methods are proved against that
invariant and against specification functions:

- `create_user`, `login_user`, `update_password` and the profile form's `save`;
- the session, the table and the file storage.

The validation hooks are pure functions over a snapshot of the rows. Lemmas state
the properties that connect them.

The two regular expressions are hand-written recognizers, each proved equal to a
declarative description of the language it matches:

- the email-shape test, with its two letter classes `[a-zA-z]` and `[a-zA-Z]`;
- `^.{8,}$`.

Both follow Python's `re.match`. It is anchored at the start, and `$` also
matches just before one final newline.

Modules, one per file: `Wrappers` (Option, Result), `Text` (`strip`, ASCII
`lower`), `Patterns`, `Hashers`, `Storage`, `Models`, `UserHelper` (utils.py),
`Forms`, `AuthBackends`, `Signals`.

## Model

| member | source | states |
|---|---|---|
| Text.Trim | dendo/dendo_users/utils.py:28 | `strip()` leaves no whitespace (Python's `isspace` set) at either end, never lengthens, and leaves an unpadded string unchanged |
| Text.TrimStart | dendo/dendo_users/utils.py:28 | the result is a suffix of the input and everything cut off is whitespace |
| Text.TrimEnd | dendo/dendo_users/utils.py:28 | the result is a prefix of the input and everything cut off is whitespace |
| Text.TrimRemovesOnlyEndSpace | dendo/dendo_users/utils.py:28 | `strip()` removes whitespace from the two ends and nothing else: the input is the result with an all-whitespace prefix and suffix around it |
| Text.TrimIdempotent | dendo/dendo_users/utils.py:31 | stripping twice is stripping once |
| Text.LowerChar | dendo/dendo_users/utils.py:34 | the lowered character is never an ASCII capital, keeps whitespace-ness, a capital `A`-`Z` becomes the letter at the same position in `a`-`z`, and non-capitals are kept |
| Text.Lower | dendo/dendo_users/utils.py:34 | same length, each character lowered in place |
| Text.LowerKeepsUnpadded | dendo/dendo_users/utils.py:34 | lower-casing an unpadded string keeps it unpadded |
| Text.NormalizeEmailIdempotent | dendo/dendo_users/utils.py:34 | `email.strip().lower()` applied to its own result changes nothing |
| Patterns.IndexOf | dendo/dendo_users/utils.py:28 | the first occurrence of a character, or none when it does not occur |
| Patterns.LastIndexOf | dendo/dendo_users/utils.py:28 | the last occurrence of a character, or none when it does not occur |
| Patterns.IsEmailShape | dendo/dendo_users/utils.py:28 | the recognizer accepts exactly the strings `[\w\.-]+@[\w\.-]+\.[letters]{2,}` matches in full |
| Patterns.SplitIsFirstAtLastDot | dendo/dendo_users/utils.py:28 | in any match the `@` is the first `@` and the `.` the last `.` of the string |
| Patterns.StrictShapeIsLooseShape | dendo/dendo_users/forms.py:102 | every string the `[a-zA-Z]` pattern matches, the `[a-zA-z]` pattern matches too |
| Patterns.LooseAdmitsMore | dendo/dendo_users/forms.py:39 | "x@y.z_" matches `[a-zA-z]` but not `[a-zA-Z]`: the two call-site patterns differ |
| Patterns.ShapeIsUnpadded | dendo/dendo_users/forms.py:39 | an email-shaped string has no whitespace at either end |
| Patterns.NoAtNotEmailShaped | dendo/dendo_users/forms.py:39 | a string without `@` never matches, with or without a final newline |
| Patterns.NoAtNoSplit | dendo/dendo_users/forms.py:39 | a string without `@` has no split into the three pieces of the pattern |
| Patterns.LooksLikeEmailUnpadded | dendo/dendo_users/utils.py:28 | on a stripped string the "before a final newline" alternative of `$` never applies |
| Patterns.ShapeSurvivesStrip | dendo/dendo_users/forms.py:102 | an email-shaped string still matches after `strip()`, so the stripped test catches it |
| Patterns.MatchesAtLeastEightSpec | dendo/dendo_users/utils.py:37 | the recognizer for `^.{8,}$` holds iff eight or more non-newline characters reach the end or a final newline |
| Patterns.ShortFailsAtLeastEight | dendo/dendo_users/utils.py:37-38 | a password shorter than eight characters fails `^.{8,}$` |
| Patterns.LongPassesAtLeastEight | dendo/dendo_users/utils.py:37 | eight or more characters without a newline pass `^.{8,}$` |
| Hashers.MakePassword | dendo/dendo_users/utils.py:53 | the stored hash accepts the password it was made from and no other |
| Storage.FileStorage.Delete | dendo/dendo_users/signals.py:9 | deleting removes exactly that path from storage |
| Models.NewUser | dendo/dendo_users/models.py:16-20 | a new row carries the given columns, bio "No bio yet.", not verified, no avatar or banner, and fits the columns iff the email is at most 254 characters |
| Models.ReplaceKeepsInvariant | dendo/dendo_users/models.py:18 | saving an existing row that clashes with no other row's username or email keeps keys ordered and usernames and emails unique |
| Models.UserTable.constructor | dendo/dendo_users/models.py:6 | an empty table satisfies the invariant |
| Models.UserTable.Insert | dendo/dendo_users/utils.py:40-44 | `objects.create_user` appends one row with the next key and the declared defaults, advances the key counter by one, and keeps the invariant |
| Models.UserTable.Save | dendo/dendo_users/utils.py:54 | `save()` overwrites the row with that key, leaves the key counter alone, and keeps the invariant |
| UserHelper.GetUser | dendo/dendo_users/utils.py:13-14 | `get_user` returns none iff no row has that email or username; otherwise the first such row in key order |
| UserHelper.FirstMatchIsFound | dendo/dendo_users/utils.py:13-14 | the first row identified by a value is what `get_user` returns |
| UserHelper.LookupByOwnIdentifiers | dendo/dendo_users/utils.py:13-14 | in a valid table an account is found by its username and by its email, unless another account uses one of them as the other kind of identifier |
| UserHelper.CheckCredentials | dendo/dendo_users/utils.py:18-20 | lookup plus verification succeeds iff the first identified row's hash accepts the password, and then returns exactly the row `get_user` returns |
| UserHelper.CredentialsByOwnIdentifiers | dendo/dendo_users/utils.py:17-24 | logging in by username or by email reaches the same account, and succeeds iff the password verifies |
| UserHelper.Session.constructor | dendo/dendo_users/utils.py:21 | a session holds the given logged-in key |
| UserHelper.LoginUser | dendo/dendo_users/utils.py:17-24 | `login_user` returns the looked-up account and logs it in iff the password verifies; otherwise returns none and leaves the session as it was |
| UserHelper.NormalizedEmail | dendo/dendo_users/utils.py:34 | `email.strip().lower()` is unpadded, no longer than the input and has no ASCII capitals |
| UserHelper.CreateUserCheckOrder | dendo/dendo_users/utils.py:28-38 | each error of `create_user` is reported iff its check fails and every earlier one passed: email-shaped stripped username, taken stripped username, taken normalized email, password failing `^.{8,}$`, then the manager's empty username |
| UserHelper.ShortPasswordNeverCreates | dendo/dendo_users/utils.py:37-38 | a password shorter than eight characters is always refused |
| UserHelper.CreatedUser | dendo/dendo_users/utils.py:40-44 | the appended row has the stripped username, the stripped lower-cased email, a hash accepting the password, the default bio, unverified |
| UserHelper.CreatedUserLogsIn | dendo/dendo_users/utils.py:46 | when the username equals its stripped form, the final login returns the new account |
| UserHelper.PaddedUsernameNotLoggedIn | dendo/dendo_users/utils.py:46 | a username with surrounding whitespace that identifies no older account leaves the new account created but the login failing |
| UserHelper.CreateUser | dendo/dendo_users/utils.py:27-46 | on a failed check the error is raised and neither table nor session changes; otherwise exactly the created row is appended, the invariant holds, and the key counter advances by one exactly then; the result and session are those of `login_user` with the username as given |
| UserHelper.PassedChecksAdmitRow | dendo/dendo_users/utils.py:28-44 | a row that passed the checks clashes with no stored username or email, is not email-shaped under either letter class, and refuses the empty password |
| UserHelper.AppendKeepsInvariants | dendo/dendo_users/utils.py:40-44 | appending a row that satisfies the two account properties keeps them for the whole table |
| UserHelper.CreationKeepsInvariants | dendo/dendo_users/utils.py:28-44 | accounts created through `create_user` keep every stored username out of email shape, every hash refusing the empty password, and every account's identifiers its own (no account uses another's username as its email or the reverse) |
| UserHelper.AppendKeepsCrossUnique | dendo/dendo_users/utils.py:31-44 | appending an account none of whose identifiers an older account uses crosswise keeps every account's identifiers its own |
| UserHelper.ReplaceKeepsCrossUnique | dendo/dendo_users/utils.py:53-54 | overwriting an account with one of the same key and email, and either the same username or one that identifies nobody, keeps every account's identifiers its own |
| UserHelper.UpdatePassword | dendo/dendo_users/utils.py:48-57 | with an account and a non-empty new password the row's hash is replaced and the account returned; otherwise none and nothing changes; the key counter never moves; the invariant, the empty-password refusal and every account owning its identifiers are kept |
| UserHelper.UpdatedPasswordLogsIn | dendo/dendo_users/utils.py:52-55 | after the update, login by username or by email succeeds with the new password and with no other |
| UserHelper.OwnerGateAdmitsEmail | dendo/dendo_users/views.py:62-65 | the profile views' gate `request.user == get_user(segment)` admits the owner by username and also by email |
| Forms.FieldIndex | dendo/dendo_users/forms.py:84 | each edit field's position in the order `save` visits them |
| Forms.SignUpCleanUsername | dendo/dendo_users/forms.py:36-46 | refused iff the stripped username is email-shaped (`[a-zA-z]`) or the unstripped one identifies an account, with the email-shape error first; otherwise returned unchanged |
| Forms.SignUpCleanEmail | dendo/dendo_users/forms.py:48-54 | refused iff the address as given identifies an account |
| Forms.SignUpCleanPasswords | dendo/dendo_users/forms.py:57-66 | "Passwords do not match." iff both passwords survived cleaning and differ |
| Forms.SharedMessages | dendo/dendo_users/forms.py:31-44 | the signup form and `create_user` raise the same text for an email-shaped username and a short password, but different texts for a taken username (the form's has no final period) |
| Forms.SignUpErrors | dendo/dendo_users/forms.py:29-66 | a signup has no errors iff the username is neither email-shaped nor taken, the email is not taken, the password has eight characters and the confirmation matches it or is empty (the framework's required-field error for an empty confirmation is not modelled) |
| Forms.ShortPasswordReported | dendo/dendo_users/forms.py:29-32 | a short password is reported and, being dropped from the cleaned data, never compared with the confirmation |
| Forms.ErrorList | dendo/dendo_users/forms.py:36-66 | the collected errors are exactly the failed checks, empty iff none failed |
| Forms.SignUpRejectsExisting | dendo/dendo_users/forms.py:36-54 | a stored account's username and email are both refused at signup, as username and as email: `clean_username` refuses either, and `clean_email` refuses either with "Email is already registered. Try logging in instead." |
| Forms.SignUpAcceptsNewUser | dendo/dendo_users/forms.py:36-66 | a fresh name, address and matching eight-character passwords sign up with no error |
| Forms.SignUpRefusesEmailUsername | dendo/dendo_users/forms.py:39-40 | an email-shaped username is refused with that error alone when the rest of the signup is acceptable |
| Forms.LogInClean | dendo/dendo_users/forms.py:189-202 | with both fields given, login is refused iff lookup plus verification fails; a missing field adds no error here |
| Forms.LoginFailureIndistinguishable | dendo/dendo_users/forms.py:194-201 | an unknown identifier and a wrong password produce the same single error, whose text is "Login failed. Make sure your email/username and password are correct." |
| Forms.LogInAcceptsOwner | dendo/dendo_users/tests.py:124-126 | the owner's username or email with the right password passes the login form |
| Forms.NewPasswordUpdateForm | dendo/dendo_users/forms.py:150-153 | building the form without a current hash raises; otherwise the form keeps that hash |
| Forms.CleanOldPassword | dendo/dendo_users/forms.py:162-168 | "Old password is incorrect." iff a given old password does not verify against the current hash |
| Forms.CleanNewPassword | dendo/dendo_users/forms.py:170-176 | "New password cannot be the same as old password." iff a given new password verifies against the current hash |
| Forms.PasswordUpdateErrors | dendo/dendo_users/forms.py:156-176 | a password change has no error iff the old input verifies (or is empty), the new one has eight characters and does not verify |
| Forms.PasswordChangeAccepted | dendo/dendo_users/forms.py:162-176 | against a hash of `current`, a change is accepted iff the old input is `current` and the new one is a different password of eight or more characters |
| Forms.PasswordUpdateScenarios | dendo/dendo_users/tests.py:111-121 | the recorded cases: right old and new password pass; wrong old and unchanged new give both errors, in field order |
| Forms.EditedOn | dendo/dendo_users/forms.py:119-131 | editing never changes the key, email, hash or verification flag |
| Forms.EditStep | dendo/dendo_users/forms.py:119-131 | visiting field `i` sets only that column and only for a non-blank value, and marks that field's old image for deletion only when it is replaced |
| Forms.AllBlankIsNoOp | dendo/dendo_users/tests.py:102-107 | an all-blank form changes no column and deletes no file |
| Forms.EditCleanUsername | dendo/dendo_users/forms.py:97-111 | the username is accepted iff it is empty, or it is not email-shaped, differs from the current username and is not taken; otherwise, in order: email-shaped (`[a-zA-Z]`) error, then "already your current username", then "taken"; an accepted one is not email-shaped and clashes with no stored identifier |
| Forms.EditAdmitsWhatSignUpRefuses | dendo/dendo_users/forms.py:102 | "x@y.z_" is refused as a signup username and accepted as a profile-edit username |
| Forms.UserEditForm.constructor | dendo/dendo_users/forms.py:86-90 | the form keeps the account, the cleaned data and the uploaded field names |
| Forms.UserEditForm.Save | dendo/dendo_users/forms.py:113-136 | the profile becomes the fully edited one; the replaced images, and only those, are deleted; the row is written iff committing and some field was non-blank; the key counter does not move; the table invariant holds |
| Forms.EditedUsernameSource | dendo/dendo_users/forms.py:130 | the edited username is the old one or the cleaned non-empty input |
| Forms.SavedProfileFits | dendo/dendo_users/forms.py:133-134 | the edited profile can be written back: same key, no username or email clash |
| Forms.SavedProfileKeepsCrossUnique | dendo/dendo_users/forms.py:106-111 | saving an edited profile, whose new username identifies nobody, keeps every account's identifiers its own |
| Forms.SavedProfileKeepsNoEmailShaped | dendo/dendo_users/forms.py:102-103 | saving an edited profile keeps every stored username out of `[a-zA-Z]` email shape |
| Forms.NewUserEditForm | dendo/dendo_users/forms.py:86-89 | building the form without an account raises; otherwise the form is built on it |
| AuthBackends.Authenticate | dendo/dendo_users/auth_backends.py:7-14 | the first identified account is returned iff nothing raised, a username was given and the password verifies; anything raised yields none |
| AuthBackends.SameAccountByUsernameOrEmail | dendo/dendo_users/tests.py:132-136 | the same account is returned for its username and for its email |
| AuthBackends.EmptyCredentialsRejected | dendo/dendo_users/tests.py:137 | empty username and password authenticate nobody when no stored hash accepts "" |
| Signals.ImageFiles | dendo/dendo_users/signals.py:8-11 | the account's set avatar and banner files, and nothing else |
| Signals.RemoveImages | dendo/dendo_users/signals.py:6-11 | after a delete, the avatar's and banner's files are removed if set, no other file is touched, and none when neither is set |

## Left out

- Password hashing is the framework's salted PBKDF2. It is modelled by a collision-free stand-in. A hash records the salt and the digest, and `check_password(p, h)` holds iff the digest is `p`. The salt stands for the hasher's randomness and is a parameter.
- Randomness, clocks (`updated_at`, `date_joined`, `last_login`) and the session and cookie machinery are left out. A session is only the key of the logged-in account.
- Sessions, requests, HTTP views, URLs, admin and app wiring are left out. The one piece of view logic modelled is the ownership gate at dendo/dendo_users/views.py:62-65. The gate at views.py:88-91 is identical.
- Concurrency is left out. Races between two signups are the database's concern.
- Database and storage failures are left out too, except as the `raised` flag of the authentication backend.
- The forms framework runs steps before each `clean_*` hook. These are not modelled, and each hook receives the value that field cleaning produced:
  - required-field errors;
  - `CharField` stripping;
  - `EmailField` syntax and length validation.
- `Forms.PasswordUpdateErrors`: an empty old password adds no error here, because the framework's required-field error for it is not modelled.
- `Forms.UserEditForm.Save`:
  - the `ModelForm`'s own model validation (unique username, bio length) is not modelled;
  - the new upload's file is not added to storage, because the framework writes it when the row is saved;
  - the "clear" checkbox of image fields is not modelled;
  - `save`'s guard against a missing account is unreachable, because the form cannot be built without one.
- `UserHelper.CreateUser` requires a valid table. The 254-character email limit is the column's declared `max_length` (dendo/dendo_users/models.py:18). `create_user` does not check it, and whether a longer email is refused depends on the database backend. `ColumnsFit` records the limit, but no operation enforces it.
- `UserHelper.CreateUser`: the last check, an empty username after stripping, is raised by the framework's user manager, not by `create_user` itself. It is modelled as `UsernameNotSet` after the four checks of the source.
- `UserHelper.CreateUser`'s contract does not itself state the trimmed-username login result or the two account properties. Those are stated on values by `CreatedUserLogsIn`, `PaddedUsernameNotLoggedIn` and `CreationKeepsInvariants`, through the ensured new rows.
- `UserHelper.CreatedUser`: usernames are assumed to be in Unicode NFKC normal form. The framework's user manager stores `normalize_username(username)`, the NFKC form, which is not modelled; the row here stores the stripped username itself.
- `UserHelper.CreatedUserLogsIn`: holds under the same NFKC assumption. For a username that NFKC changes (for example one containing the ligature U+FB01), the source stores a different name, and the final login by the name as given finds nobody.
- `UserHelper.CreateUser`: under the same NFKC assumption. A username whose NFKC form is an existing username passes the "taken" check in the source and then fails on the database's unique constraint; here it cannot arise.
- `UserHelper.UpdatePassword` and `Forms.UserEditForm.Save` take the instance to be the stored row (`request.user`). Editing a stale copy is not modelled.
- Text handling is restricted in three ways:
  - `\w` is taken over ASCII letters, digits and underscore;
  - `lower()` lowers ASCII capitals only;
  - the database's string comparison is exact, with no collation or case folding.
- The avatar and banner snapshot taken in `CustomUser.__init__` (dendo/dendo_users/models.py:8-11) is not used by any modelled operation. `__str__` is not modelled.
