/**
 * The `CustomUser` record (dendo/dendo_users/models.py) and the table that
 * stores it. Rows are kept in primary-key order, the order in which the
 * framework's `.first()` returns them.
 */
module Models {

  import opened Wrappers
  import opened Hashers
  import Storage

  const DefaultBio: string := "No bio yet."
  const BioMaxLength: nat := 160
  const EmailMaxLength: nat := 254

  /**
   * One account. `avatar` and `banner` are the stored image paths, `None` when
   * unset; timestamps are left to the framework and not modelled.
   */
  datatype User = User(
    id: nat,
    username: string,
    email: string,
    password: PasswordHash,
    bio: string,
    isVerified: bool,
    avatar: Option<Storage.Path>,
    banner: Option<Storage.Path>)

  /** Truthiness of an image field: a file is set and its name is not empty. */
  predicate HasImage(f: Option<Storage.Path>)
  {
    f.Some? && f.value != ""
  }

  /** The column length limits of `email` and `bio`. */
  predicate ColumnsFit(u: User)
  {
    |u.email| <= EmailMaxLength && |u.bio| <= BioMaxLength
  }

  /** A fresh row: every column the caller does not give takes its declared default. */
  function NewUser(id: nat, username: string, email: string, password: PasswordHash): (u: User)
    ensures u.id == id && u.username == username && u.email == email && u.password == password
    ensures u.bio == DefaultBio && !u.isVerified
    ensures !HasImage(u.avatar) && !HasImage(u.banner)
    ensures ColumnsFit(u) <==> |email| <= EmailMaxLength
  {
    User(id, username, email, password, DefaultBio, false, None, None)
  }

  /**
   * The table's constraints: primary keys ascend in row order and lie below the
   * next key to hand out; usernames are unique and emails are unique.
   */
  ghost predicate TableInvariant(rows: seq<User>, nextId: nat)
  {
    && (forall i, j :: 0 <= i < j < |rows| ==> rows[i].id < rows[j].id)
    && (forall i :: 0 <= i < |rows| ==> rows[i].id < nextId)
    && (forall i, j :: 0 <= i < j < |rows| ==> rows[i].username != rows[j].username)
    && (forall i, j :: 0 <= i < j < |rows| ==> rows[i].email != rows[j].email)
  }

  /** Writing `u` would violate neither uniqueness constraint. */
  predicate FitsUnique(rows: seq<User>, u: User)
  {
    forall r :: r in rows && r.id != u.id ==> r.username != u.username && r.email != u.email
  }

  predicate HasRow(rows: seq<User>, id: nat)
  {
    exists i :: 0 <= i < |rows| && rows[i].id == id
  }

  /** The rows after `u.save()` on an existing row: the row with `u`'s key becomes `u`. */
  function Replace(rows: seq<User>, u: User): (r: seq<User>)
  {
    seq(|rows|, i requires 0 <= i < |rows| => if rows[i].id == u.id then u else rows[i])
  }

  /** Saving a row that keeps its key and fits the uniqueness constraints keeps the invariant. */
  lemma ReplaceKeepsInvariant(rows: seq<User>, nextId: nat, u: User)
    requires TableInvariant(rows, nextId)
    requires HasRow(rows, u.id)
    requires FitsUnique(rows, u)
    ensures TableInvariant(Replace(rows, u), nextId)
    ensures u in Replace(rows, u)
  {
    var r := Replace(rows, u);
    forall i, j | 0 <= i < j < |r|
      ensures r[i].id < r[j].id
      ensures r[i].username != r[j].username && r[i].email != r[j].email
    {
      if rows[i].id == u.id {
        assert rows[j] in rows;
      } else if rows[j].id == u.id {
        assert rows[i] in rows;
      }
    }
    var k :| 0 <= k < |rows| && rows[k].id == u.id;
    assert r[k] == u;
  }

  /** The `CustomUser` table. */
  class UserTable {
    var rows: seq<User>
    var nextId: nat

    ghost predicate Valid()
      reads this
    {
      TableInvariant(rows, nextId)
    }

    constructor()
      ensures Valid() && rows == []
    {
      rows := [];
      nextId := 0;
    }

    /** `objects.create_user(...)`: appends a row with a fresh key and the declared defaults. */
    method Insert(username: string, email: string, password: PasswordHash) returns (u: User)
      requires Valid()
      requires forall r :: r in rows ==> r.username != username && r.email != email
      modifies this
      ensures Valid()
      ensures u == NewUser(old(nextId), username, email, password)
      ensures rows == old(rows) + [u] && nextId == old(nextId) + 1
    {
      u := NewUser(nextId, username, email, password);
      rows := rows + [u];
      nextId := nextId + 1;
    }

    /** `u.save()` for a row that exists: the stored row is overwritten with `u`. */
    method Save(u: User)
      requires Valid()
      requires HasRow(rows, u.id)
      requires FitsUnique(rows, u)
      modifies this
      ensures Valid()
      ensures rows == Replace(old(rows), u) && u in rows && nextId == old(nextId)
    {
      ReplaceKeepsInvariant(rows, nextId, u);
      rows := Replace(rows, u);
    }
  }
}
