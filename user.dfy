/**
 * The user directory of models/user.ts. The `users` table is a sequence of
 * rows in insertion order. `create` and `update` change it and overwrite
 * fields of the input object they are given; the lookups, the uniqueness
 * checks and `findAll` only read it.
 */
module Users {
  import opened Wrappers
  import opened Errors
  import Ascii
  import Tables
  import Password

  const ADMIN := "admin"
  /** The role of every user but the first, spelled as the source spells it. */
  const COMMON := "commum"

  /**
   * A row of `users`. `email` and `password` are nullable columns: `update`
   * writes NULL into them when its input leaves them out.
   */
  datatype User = User(id: int, username: string, email: Option<string>, password: Option<string>,
                       role: string, createdAt: int, updatedAt: int)

  /** A row as `findAll` selects it: every column but the password. */
  datatype PublicUser = PublicUser(id: int, username: string, email: Option<string>, role: string,
                                   createdAt: int, updatedAt: int)

  /** `LOWER(username) = LOWER($1)` (see `Ascii.SameIgnoringCasePointwise`). */
  predicate UsernameIs(u: User, username: string): (matches: bool)
    ensures matches ==> |u.username| == |username|
  {
    Ascii.SameIgnoringCase(u.username, username)
  }

  /** `LOWER(email) = LOWER($1)`; a NULL email matches nothing. */
  predicate EmailIs(u: User, email: string): (matches: bool)
    ensures u.email.None? ==> !matches
    ensures matches ==> |u.email.value| == |email|
  {
    u.email.Some? && Ascii.SameIgnoringCase(u.email.value, email)
  }

  predicate IsAdmin(u: User) {
    u.role == ADMIN
  }

  ghost predicate UsernameInUse(rows: seq<User>, username: string) {
    exists i :: 0 <= i < |rows| && UsernameIs(rows[i], username)
  }

  ghost predicate EmailInUse(rows: seq<User>, email: string) {
    exists i :: 0 <= i < |rows| && EmailIs(rows[i], email)
  }

  ghost predicate AdminExists(rows: seq<User>) {
    exists i :: 0 <= i < |rows| && IsAdmin(rows[i])
  }

  const IdNotFound := NewNotFoundError(ErrorParams(
    Some("O id informado não foi encontrado no sistema"),
    Some("Verifique se o id está digitado corretamente"), None))
  const UsernameNotFound := NewNotFoundError(ErrorParams(
    Some("O username informado não foi encontrado no sistema"),
    Some("Verifique se o username está digitado corretamente"), None))
  const EmailNotFound := NewNotFoundError(ErrorParams(
    Some("O email informado não foi encontrado no sistema"),
    Some("Verifique se o email está digitado corretamente"), None))
  const UsernameTaken := NewValidationError(ErrorParams(
    Some("Username ja existe"), Some("Escolha outro username"), None))
  const EmailTaken := NewValidationError(ErrorParams(
    Some("Email ja existe"), Some("Escolha outro email"), None))
  const AdminTaken := NewValidationError(ErrorParams(
    Some("Já existe um administrador"), Some("Apenas um usuário pode ter role admin"), None))

  // Lookups

  function FindOneById(rows: seq<User>, id: int): (r: Result<User, AppError>)
    ensures r.Success? ==> r.value in rows && r.value.id == id
    ensures r.Failure? <==> forall i :: 0 <= i < |rows| ==> rows[i].id != id
    ensures r.Failure? ==> r.error == IdNotFound && r.error.kind == NotFound
  {
    match Tables.FirstIndex(rows, (u: User) => u.id == id)
    case Some(k) => Success(rows[k])
    case None => Failure(IdNotFound)
  }

  function FindOneByUsername(rows: seq<User>, username: string): (r: Result<User, AppError>)
    ensures r.Success? ==> r.value in rows && UsernameIs(r.value, username)
    ensures r.Failure? <==> !UsernameInUse(rows, username)
    ensures r.Failure? ==> r.error == UsernameNotFound && r.error.kind == NotFound
  {
    match Tables.FirstIndex(rows, (u: User) => UsernameIs(u, username))
    case Some(k) => Success(rows[k])
    case None => Failure(UsernameNotFound)
  }

  function FindOneByEmail(rows: seq<User>, email: string): (r: Result<User, AppError>)
    ensures r.Success? ==> r.value in rows && EmailIs(r.value, email)
    ensures r.Failure? <==> !EmailInUse(rows, email)
    ensures r.Failure? ==> r.error == EmailNotFound && r.error.kind == NotFound
  {
    match Tables.FirstIndex(rows, (u: User) => EmailIs(u, email))
    case Some(k) => Success(rows[k])
    case None => Failure(EmailNotFound)
  }

  function ValidateUniqueUsername(rows: seq<User>, username: string): (o: Outcome<AppError>)
    ensures o.Fail? <==> UsernameInUse(rows, username)
    ensures o.Fail? ==> o.error == UsernameTaken && o.error.kind == Validation
  {
    if Tables.FirstIndex(rows, (u: User) => UsernameIs(u, username)).Some? then Fail(UsernameTaken) else Pass
  }

  function ValidateUniqueEmail(rows: seq<User>, email: string): (o: Outcome<AppError>)
    ensures o.Fail? <==> EmailInUse(rows, email)
    ensures o.Fail? ==> o.error == EmailTaken && o.error.kind == Validation
  {
    if Tables.FirstIndex(rows, (u: User) => EmailIs(u, email)).Some? then Fail(EmailTaken) else Pass
  }

  /** `SELECT COUNT(*) FROM users WHERE role = 'admin'` */
  function AdminCount(rows: seq<User>): (n: nat)
    ensures n > 0 <==> AdminExists(rows)
  {
    Tables.Count(rows, IsAdmin)
  }

  /** The role `create` assigns: admin while there is none, "commum" after. */
  function RoleForNewUser(rows: seq<User>): (role: string)
    ensures role == ADMIN <==> !AdminExists(rows)
    ensures role != ADMIN ==> role == COMMON
  {
    if AdminCount(rows) > 0 then COMMON else ADMIN
  }

  function ValidateUniqueAdmin(rows: seq<User>, role: string): (o: Outcome<AppError>)
    ensures o.Fail? <==> role == ADMIN && AdminExists(rows)
    ensures o.Fail? ==> o.error == AdminTaken
  {
    if role == ADMIN && AdminCount(rows) > 0 then Fail(AdminTaken) else Pass
  }

  /** Run one after the other on the same table, the role choice and the admin check never disagree. */
  lemma AdminCheckPassesForAssignedRole(rows: seq<User>)
    ensures ValidateUniqueAdmin(rows, RoleForNewUser(rows)) == Pass
  {
  }

  function Public(u: User): PublicUser {
    PublicUser(u.id, u.username, u.email, u.role, u.createdAt, u.updatedAt)
  }

  function FindAll(rows: seq<User>): (r: seq<PublicUser>)
    ensures |r| == |rows|
    ensures forall i :: 0 <= i < |rows| ==>
              && r[i].id == rows[i].id && r[i].username == rows[i].username
              && r[i].email == rows[i].email && r[i].role == rows[i].role
              && r[i].createdAt == rows[i].createdAt && r[i].updatedAt == rows[i].updatedAt
  {
    if rows == [] then [] else [Public(rows[0])] + FindAll(rows[1..])
  }

  // The checks of create and update, in the order the source runs them

  /** Email first, then username. */
  function CreateCheck(rows: seq<User>, email: string, username: string): (o: Outcome<AppError>)
    ensures EmailInUse(rows, email) ==> o == Fail(EmailTaken)
    ensures !EmailInUse(rows, email) && UsernameInUse(rows, username) ==> o == Fail(UsernameTaken)
    ensures o.Pass? <==> !EmailInUse(rows, email) && !UsernameInUse(rows, username)
  {
    match ValidateUniqueEmail(rows, email)
    case Fail(e) => Fail(e)
    case Pass => ValidateUniqueUsername(rows, username)
  }

  /**
   * A supplied email is always checked, even against the user's own row; a
   * supplied username only when it differs from the current one ignoring case.
   */
  function UpdateCheck(rows: seq<User>, current: User, newUsername: Option<string>, newEmail: Option<string>)
    : (o: Outcome<AppError>)
    ensures newEmail.Some? && EmailInUse(rows, newEmail.value) ==> o == Fail(EmailTaken)
    ensures !(newEmail.Some? && EmailInUse(rows, newEmail.value))
            && newUsername.Some? && !Ascii.SameIgnoringCase(current.username, newUsername.value)
            && UsernameInUse(rows, newUsername.value)
            ==> o == Fail(UsernameTaken)
    ensures o.Pass? <==>
            && !(newEmail.Some? && EmailInUse(rows, newEmail.value))
            && !(newUsername.Some? && !Ascii.SameIgnoringCase(current.username, newUsername.value)
                 && UsernameInUse(rows, newUsername.value))
  {
    if newEmail.Some? && ValidateUniqueEmail(rows, newEmail.value).Fail? then Fail(EmailTaken)
    else if newUsername.Some? && !Ascii.SameIgnoringCase(current.username, newUsername.value)
    then ValidateUniqueUsername(rows, newUsername.value)
    else Pass
  }

  /**
   * The row `update` writes: the username of `{ ...currentUser, ...input }`,
   * but email and password straight from the input, NULL when left out.
   */
  function Updated(current: User, newUsername: Option<string>, newEmail: Option<string>,
                   newPassword: Option<string>, now: int): (u: User)
    ensures u.id == current.id && u.role == current.role && u.createdAt == current.createdAt
    ensures u.username == (if newUsername.Some? then newUsername.value else current.username)
    ensures u.email == newEmail && u.password == newPassword
    ensures u.updatedAt == now
  {
    current.(username := if newUsername.Some? then newUsername.value else current.username,
             email := newEmail, password := newPassword, updatedAt := now)
  }

  /** `UPDATE users SET ... WHERE id = $1`: the rows with that id become `u`. */
  function ReplaceWhereId(rows: seq<User>, id: int, u: User): (r: seq<User>)
    ensures |r| == |rows|
    ensures forall i :: 0 <= i < |rows| ==> r[i] == if rows[i].id == id then u else rows[i]
  {
    if rows == [] then [] else [if rows[0].id == id then u else rows[0]] + ReplaceWhereId(rows[1..], id, u)
  }

  /** A supplied email equal to the user's own, ignoring case, is rejected as taken. */
  lemma UpdateRejectsOwnEmail(rows: seq<User>, k: nat, newUsername: Option<string>, email: string)
    requires k < |rows| && EmailIs(rows[k], email)
    ensures UpdateCheck(rows, rows[k], newUsername, Some(email)) == Fail(EmailTaken)
  {
  }

  /** Re-casing one's own username passes the checks when no email is supplied. */
  lemma UpdateAcceptsOwnUsername(rows: seq<User>, current: User, username: string)
    requires Ascii.SameIgnoringCase(current.username, username)
    ensures UpdateCheck(rows, current, Some(username), None) == Pass
  {
  }

  /** The input object of create and update; a key left out is None. */
  class UserInput {
    var username: Option<string>
    var email: Option<string>
    var password: Option<string>
    var role: Option<string>

    constructor (username: Option<string>, email: Option<string>, password: Option<string>)
      ensures this.username == username && this.email == email && this.password == password
      ensures role == None
    {
      this.username := username;
      this.email := email;
      this.password := password;
      role := None;
    }
  }

  /** Replaces the plaintext password of the input object by its hash. */
  method HashPasswordInObject(input: UserInput, env: Password.Env, b: Password.Bcrypt, salt: string)
    requires input.password.Some?
    modifies input
    ensures input.password == Some(Password.Hash(env, b, old(input.password).value, salt))
    ensures input.username == old(input.username) && input.email == old(input.email)
    ensures input.role == old(input.role)
  {
    input.password := Some(Password.Hash(env, b, input.password.value, salt));
  }

  /** The primary key, as a function for `Tables.KeysUnique`. */
  function UserId(u: User): int { u.id }

  /**
   * At most one user is an admin; usernames, and the emails that are not
   * NULL, are unique ignoring case.
   */
  ghost predicate Unique(rows: seq<User>) {
    && (forall i, j :: 0 <= i < j < |rows| ==> !(IsAdmin(rows[i]) && IsAdmin(rows[j])))
    && (forall i, j :: 0 <= i < j < |rows| ==> !UsernameIs(rows[i], rows[j].username))
    && (forall i, j :: 0 <= i < j < |rows| && rows[j].email.Some? ==> !EmailIs(rows[i], rows[j].email.value))
  }

  /** Ids are unique and below the next serial value, and `Unique` holds. */
  ghost predicate TableInvariant(rows: seq<User>, nextId: int) {
    && nextId >= 1
    && (forall i :: 0 <= i < |rows| ==> 1 <= rows[i].id < nextId)
    && Tables.KeysUnique(rows, UserId)
    && Unique(rows)
  }

  /** Under the invariant, `SELECT COUNT(*) FROM users WHERE role = 'admin'` is at most one. */
  lemma {:induction false} AtMostOneAdmin(rows: seq<User>)
    requires forall i, j :: 0 <= i < j < |rows| ==> !(IsAdmin(rows[i]) && IsAdmin(rows[j]))
    ensures AdminCount(rows) <= 1
  {
    if rows != [] {
      var tail := rows[1..];
      assert forall i, j :: 0 <= i < j < |tail| ==> !(IsAdmin(tail[i]) && IsAdmin(tail[j])) by {
        forall i, j | 0 <= i < j < |tail| ensures !(IsAdmin(tail[i]) && IsAdmin(tail[j])) {
          assert tail[i] == rows[i + 1] && tail[j] == rows[j + 1];
        }
      }
      AtMostOneAdmin(tail);
      if IsAdmin(rows[0]) {
        assert forall j :: 0 <= j < |tail| ==> !IsAdmin(tail[j]) by {
          forall j | 0 <= j < |tail| ensures !IsAdmin(tail[j]) {
            assert tail[j] == rows[j + 1];
          }
        }
      }
    }
  }

  /** Appending a row that passed create's checks keeps the table invariant. */
  lemma InsertKeepsInvariant(rows: seq<User>, nextId: int, u: User)
    requires TableInvariant(rows, nextId)
    requires u.id == nextId
    requires !UsernameInUse(rows, u.username)
    requires u.email.Some? ==> !EmailInUse(rows, u.email.value)
    requires IsAdmin(u) ==> !AdminExists(rows)
    ensures TableInvariant(rows + [u], nextId + 1)
  {
    var after := rows + [u];
    forall i, j | 0 <= i < j < |after|
      ensures !UsernameIs(after[i], after[j].username)
    {
      if j == |rows| {
        assert !UsernameIs(rows[i], u.username);
      }
    }
    forall i, j | 0 <= i < j < |after| && after[j].email.Some?
      ensures !EmailIs(after[i], after[j].email.value)
    {
      if j == |rows| {
        assert !EmailIs(rows[i], u.email.value);
      }
    }
    forall i, j | 0 <= i < j < |after|
      ensures !(IsAdmin(after[i]) && IsAdmin(after[j]))
    {
      if j == |rows| && IsAdmin(u) {
        assert !IsAdmin(rows[i]);
      }
    }
  }

  lemma PointReplace(rows: seq<User>, k: nat, u: User)
    requires k < |rows| && Tables.KeysUnique(rows, UserId)
    ensures ReplaceWhereId(rows, rows[k].id, u) == rows[k := u]
  {
    forall i | 0 <= i < |rows|
      ensures ReplaceWhereId(rows, rows[k].id, u)[i] == rows[k := u][i]
    {
      if i < k {
        assert rows[i].id != rows[k].id;
      } else if i > k {
        assert rows[k].id != rows[i].id;
      }
    }
  }

  /** The users table. */
  class UserTable {
    var rows: seq<User>
    /** The next value of the serial `id` column. */
    var nextId: int

    ghost predicate Valid()
      reads this
    {
      TableInvariant(rows, nextId)
    }

    constructor ()
      ensures Valid() && rows == []
    {
      rows := [];
      nextId := 1;
    }

    method Create(input: UserInput, env: Password.Env, b: Password.Bcrypt, salt: string, now: int)
      returns (r: Result<User, AppError>)
      requires Valid()
      requires input.username.Some? && input.email.Some? && input.password.Some?
      modifies this, input
      ensures Valid()
      ensures var check := CreateCheck(old(rows), old(input.email).value, old(input.username).value);
              check.Fail? ==> r == Failure(check.error) && rows == old(rows) && nextId == old(nextId)
                              && unchanged(input)
      ensures var check := CreateCheck(old(rows), old(input.email).value, old(input.username).value);
              var u := User(old(nextId), old(input.username).value, old(input.email),
                            Some(Password.Hash(env, b, old(input.password).value, salt)),
                            RoleForNewUser(old(rows)), now, now);
              check.Pass? ==> && r == Success(u) && rows == old(rows) + [u] && nextId == old(nextId) + 1
                              && input.password == u.password && input.role == Some(u.role)
                              && input.username == old(input.username) && input.email == old(input.email)
    {
      var emailCheck := ValidateUniqueEmail(rows, input.email.value);
      if emailCheck.Fail? {
        r := Failure(emailCheck.error);
        return;
      }
      var usernameCheck := ValidateUniqueUsername(rows, input.username.value);
      if usernameCheck.Fail? {
        r := Failure(usernameCheck.error);
        return;
      }
      HashPasswordInObject(input, env, b, salt);
      var adminExists := AdminCount(rows) > 0;
      input.role := Some(if adminExists then COMMON else ADMIN);
      var adminCheck := ValidateUniqueAdmin(rows, input.role.value);
      if adminCheck.Fail? {
        // unreachable: validateUniqueAdmin counts admins in the table the role was just chosen from
        r := Failure(AdminTaken);
        return;
      }
      var u := User(nextId, input.username.value, input.email, input.password, input.role.value, now, now);
      InsertKeepsInvariant(rows, nextId, u);
      rows := rows + [u];
      nextId := nextId + 1;
      r := Success(u);
    }

    method Update(username: string, input: UserInput, env: Password.Env, b: Password.Bcrypt, salt: string, now: int)
      returns (r: Result<User, AppError>)
      requires Valid()
      modifies this, input
      ensures Valid() && nextId == old(nextId)
      ensures var found := FindOneByUsername(old(rows), username);
              found.Failure? ==> r == Failure(found.error) && rows == old(rows) && unchanged(input)
      ensures var found := FindOneByUsername(old(rows), username);
              found.Success? ==>
                var check := UpdateCheck(old(rows), found.value, old(input.username), old(input.email));
                check.Fail? ==> r == Failure(check.error) && rows == old(rows) && unchanged(input)
      ensures var found := FindOneByUsername(old(rows), username);
              found.Success? ==>
                var check := UpdateCheck(old(rows), found.value, old(input.username), old(input.email));
                var newPassword := if old(input.password).Some?
                                   then Some(Password.Hash(env, b, old(input.password).value, salt)) else None;
                var u := Updated(found.value, old(input.username), old(input.email), newPassword, now);
                check.Pass? ==>
                  && r == Success(u) && rows == ReplaceWhereId(old(rows), found.value.id, u)
                  && input.password == newPassword
                  && input.username == old(input.username) && input.email == old(input.email)
                  && input.role == old(input.role)
    {
      var found := FindOneByUsername(rows, username);
      if found.Failure? {
        r := Failure(found.error);
        return;
      }
      var current := found.value;
      if input.email.Some? {
        var emailCheck := ValidateUniqueEmail(rows, input.email.value);
        if emailCheck.Fail? {
          r := Failure(emailCheck.error);
          return;
        }
      }
      if input.username.Some? && !Ascii.SameIgnoringCase(current.username, input.username.value) {
        var usernameCheck := ValidateUniqueUsername(rows, input.username.value);
        if usernameCheck.Fail? {
          r := Failure(usernameCheck.error);
          return;
        }
      }
      assert UpdateCheck(rows, current, input.username, input.email) == Pass;
      ghost var newPassword := if input.password.Some?
                               then Some(Password.Hash(env, b, input.password.value, salt)) else None;
      if input.password.Some? {
        HashPasswordInObject(input, env, b, salt);
      }
      assert input.password == newPassword;
      var u := RunUpdateQuery(current, input.username, input.email, input.password, now);
      r := Success(u);
    }

    /** `UPDATE users SET username, email, password, updated_at WHERE id = $1 RETURNING *` */
    method RunUpdateQuery(current: User, newUsername: Option<string>, newEmail: Option<string>,
                          newPassword: Option<string>, now: int) returns (u: User)
      requires Valid() && current in rows
      requires newUsername.Some? ==>
                 Ascii.SameIgnoringCase(current.username, newUsername.value) || !UsernameInUse(rows, newUsername.value)
      requires newEmail.Some? ==> !EmailInUse(rows, newEmail.value)
      modifies this
      ensures Valid() && nextId == old(nextId)
      ensures u == Updated(current, newUsername, newEmail, newPassword, now)
      ensures rows == ReplaceWhereId(old(rows), current.id, u)
    {
      u := Updated(current, newUsername, newEmail, newPassword, now);
      var k :| 0 <= k < |rows| && rows[k] == current;
      PointReplace(rows, k, u);
      ReplaceKeepsInvariant(rows, nextId, k, u);
      rows := rows[k := u];
    }
  }

  /** Replacing row `k` by a row that passed update's checks keeps the table invariant. */
  lemma ReplaceKeepsInvariant(rows: seq<User>, nextId: int, k: nat, u: User)
    requires k < |rows| && TableInvariant(rows, nextId)
    requires u.id == rows[k].id && u.role == rows[k].role
    requires Ascii.SameIgnoringCase(u.username, rows[k].username) || !UsernameInUse(rows, u.username)
    requires u.email.Some? ==> !EmailInUse(rows, u.email.value)
    ensures TableInvariant(rows[k := u], nextId)
  {
    var after := rows[k := u];
    forall i, j | 0 <= i < j < |after|
      ensures !UsernameIs(after[i], after[j].username)
    {
      if i == k {
        assert !UsernameIs(rows[j], u.username);
      } else if j == k {
        assert !UsernameIs(rows[i], u.username);
      }
    }
    forall i, j | 0 <= i < j < |after| && after[j].email.Some?
      ensures !EmailIs(after[i], after[j].email.value)
    {
      if i == k {
        if u.email.Some? {
          assert !EmailIs(rows[j], u.email.value);
        }
      } else if j == k {
        assert !EmailIs(rows[i], u.email.value);
      }
    }
    forall i, j | 0 <= i < j < |after|
      ensures !(IsAdmin(after[i]) && IsAdmin(after[j]))
    {
      if i == k || j == k {
        assert IsAdmin(u) == IsAdmin(rows[k]);
      }
    }
    forall i, j | 0 <= i < j < |after|
      ensures after[i].id != after[j].id
    {
      if i == k || j == k {
        assert u.id == rows[k].id;
      }
    }
  }
}
