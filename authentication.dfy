/**
 * `getAuthenticatedUser` of models/authentication.ts: look the user up by
 * email, compare the password, and replace every UnauthorizedError raised on
 * the way by one generic UnauthorizedError, so that a wrong email and a wrong
 * password cannot be told apart. It reads the user directory and writes nothing.
 */
module Authentication {
  import opened Wrappers
  import opened Errors
  import Users
  import Password

  /** `user.findOneByEmail`, as the service sees it: it may also throw anything else. */
  type Lookup = string -> Result<Users.User, Thrown>

  /** `password.compare(provided, stored)`, which may throw; the stored password may be NULL. */
  type Comparator = (string, Option<string>) -> Result<bool, Thrown>

  const CHECK_DATA := "Verifique se os dados enviados estão corretos"

  const EmailMismatch := NewUnauthorizedError(ErrorParams(Some("Email não confere."), Some(CHECK_DATA), None))
  const PasswordMismatch := NewUnauthorizedError(ErrorParams(Some("Senha não confere."), Some(CHECK_DATA), None))
  /** The only UnauthorizedError a caller ever receives. */
  const CredentialsMismatch := NewUnauthorizedError(ErrorParams(
    Some("Dados de autenticação não conferem."), Some(CHECK_DATA), None))

  predicate IsUnauthorized(t: Thrown) {
    t.Raised? && t.error.kind == Unauthorized
  }

  /** Any failure of the lookup becomes the email error. */
  function FindUserByEmail(lookup: Lookup, email: string): (r: Result<Users.User, Thrown>)
    ensures r.Success? <==> lookup(email).Success?
    ensures r.Success? ==> r.value == lookup(email).value
    ensures r.Failure? ==> r.error == Raised(EmailMismatch)
  {
    match lookup(email)
    case Success(u) => Success(u)
    case Failure(_) => Failure(Raised(EmailMismatch))
  }

  /** A false comparison becomes the password error; an exception of `compare` is passed on. */
  function ValidatePassword(compare: Comparator, provided: string, stored: Option<string>): (o: Outcome<Thrown>)
    ensures o.Pass? <==> compare(provided, stored) == Success(true)
    ensures compare(provided, stored) == Success(false) ==> o == Fail(Raised(PasswordMismatch))
    ensures compare(provided, stored).Failure? ==> o == Fail(compare(provided, stored).error)
  {
    match compare(provided, stored)
    case Success(true) => Pass
    case Success(false) => Fail(Raised(PasswordMismatch))
    case Failure(e) => Fail(e)
  }

  /** The outer `catch`: an UnauthorizedError is replaced, anything else rethrown as it is. */
  function Launder(t: Thrown): (r: Thrown)
    ensures IsUnauthorized(t) ==> r == Raised(CredentialsMismatch)
    ensures !IsUnauthorized(t) ==> r == t
  {
    if IsUnauthorized(t) then Raised(CredentialsMismatch) else t
  }

  function GetAuthenticatedUser(lookup: Lookup, compare: Comparator, email: string, password: string)
    : (r: Result<Users.User, Thrown>)
    ensures r.Success? <==> lookup(email).Success? && compare(password, lookup(email).value.password) == Success(true)
    ensures r.Success? ==> r.value == lookup(email).value
    ensures lookup(email).Failure? ==> r == Failure(Raised(CredentialsMismatch))
    ensures lookup(email).Success? && compare(password, lookup(email).value.password) == Success(false)
            ==> r == Failure(Raised(CredentialsMismatch))
    ensures lookup(email).Success? && compare(password, lookup(email).value.password).Failure?
            ==> r == Failure(Launder(compare(password, lookup(email).value.password).error))
    ensures r.Failure? && IsUnauthorized(r.error) ==> r.error == Raised(CredentialsMismatch)
  {
    match FindUserByEmail(lookup, email)
    case Failure(e) => Failure(Launder(e))
    case Success(stored) =>
      match ValidatePassword(compare, password, stored.password)
      case Fail(e) => Failure(Launder(e))
      case Pass => Success(stored)
  }

  /** When the lookup fails, `compare` is never consulted: the outcome does not depend on it. */
  lemma LookupFailureSkipsCompare(lookup: Lookup, c1: Comparator, c2: Comparator, email: string, password: string)
    requires lookup(email).Failure?
    ensures GetAuthenticatedUser(lookup, c1, email, password) == GetAuthenticatedUser(lookup, c2, email, password)
  {
  }

  /**
   * A wrong email and a wrong password produce the same error, and hence the
   * same serialised body, whatever else the two attempts had in common.
   */
  lemma WrongEmailLikeWrongPassword(lookup1: Lookup, c1: Comparator, email1: string, password1: string,
                                    lookup2: Lookup, c2: Comparator, email2: string, password2: string)
    requires lookup1(email1).Failure?
    requires lookup2(email2).Success? && c2(password2, lookup2(email2).value.password) == Success(false)
    ensures GetAuthenticatedUser(lookup1, c1, email1, password1) == GetAuthenticatedUser(lookup2, c2, email2, password2)
    ensures var r := GetAuthenticatedUser(lookup1, c1, email1, password1);
            r.Failure? && r.error.Raised? && ToJson(r.error.error) == ErrorJson(
              "UnauthorizedError", "Dados de autenticação não conferem.", CHECK_DATA, 401)
  {
  }

  // The service over the in-memory user table and the password policy

  /** `user.findOneByEmail` over a table: it throws nothing but its NotFoundError. */
  function TableLookup(rows: seq<Users.User>): (lookup: Lookup)
    ensures forall email :: lookup(email).Success? <==> Users.EmailInUse(rows, email)
    ensures forall email :: lookup(email).Success? ==>
              lookup(email).value in rows && Users.EmailIs(lookup(email).value, email)
    ensures forall email :: lookup(email).Failure? ==> lookup(email).error == Raised(Users.EmailNotFound)
  {
    (email: string) =>
      match Users.FindOneByEmail(rows, email)
      case Success(u) => Success(u)
      case Failure(e) => Failure(Raised(e))
  }

  /** The description of what bcryptjs throws when the stored hash is NULL. */
  const ILLEGAL_ARGUMENTS := "Illegal arguments: string, object"

  /**
   * `password.compare` under a policy. A stored hash is compared with the
   * peppered password; a NULL one makes bcryptjs throw (its own argument
   * check), and what it throws is never an UnauthorizedError.
   */
  function PolicyComparator(env: Password.Env, b: Password.Bcrypt): (compare: Comparator)
    ensures forall provided: string, stored: Option<string> :: stored.Some? ==>
              compare(provided, stored) == Success(Password.Compare(env, b, provided, stored.value))
    ensures forall provided: string :: compare(provided, None) == Failure(Foreign(ILLEGAL_ARGUMENTS))
    ensures forall provided: string, stored: Option<string> :: compare(provided, stored).Failure? ==>
              !IsUnauthorized(compare(provided, stored).error)
  {
    (provided: string, stored: Option<string>) =>
      if stored.Some? then Success(Password.Compare(env, b, provided, stored.value))
      else Failure(Foreign(ILLEGAL_ARGUMENTS))
  }

  /**
   * Against a table and the policy: the user whose email matches and whose
   * stored hash was made from the given password, under the same policy, is
   * returned; any other password is refused with the generic error.
   */
  lemma AuthenticateAgainstTable(rows: seq<Users.User>, env: Password.Env, b: Password.Bcrypt,
                                 k: nat, email: string, password: string, given: string, salt: string)
    requires Password.Sound(b) && Password.Binding(b)
    requires k < |rows| && Users.Unique(rows)
    requires Users.EmailIs(rows[k], email)
    requires rows[k].password == Some(Password.Hash(env, b, password, salt))
    ensures var r := GetAuthenticatedUser(TableLookup(rows), PolicyComparator(env, b), email, given);
            (given == password ==> r == Success(rows[k]))
            && (given != password ==> r == Failure(Raised(CredentialsMismatch)))
  {
    var found := Users.FindOneByEmail(rows, email);
    assert found.Success?;
    var i :| 0 <= i < |rows| && rows[i] == found.value;
    if i != k {
      // two rows with the same email, ignoring case, contradict Unique
      assert false;
    }
    Password.CompareOnlyAcceptsHashedPassword(env, b, given, password, salt);
  }

  /** An email that no row has is refused with the generic error, without consulting the passwords. */
  lemma UnknownEmailRefused(rows: seq<Users.User>, compare: Comparator, email: string, password: string)
    requires forall i :: 0 <= i < |rows| ==> !Users.EmailIs(rows[i], email)
    ensures GetAuthenticatedUser(TableLookup(rows), compare, email, password) == Failure(Raised(CredentialsMismatch))
  {
    assert Users.FindOneByEmail(rows, email).Failure?;
  }

  /**
   * A user whose password column is NULL (after an `update` that left the
   * password out) cannot log in, and the failure is not an UnauthorizedError:
   * the exception of bcryptjs escapes unchanged.
   */
  lemma NullPasswordEscapes(rows: seq<Users.User>, env: Password.Env, b: Password.Bcrypt, email: string, given: string)
    requires Users.FindOneByEmail(rows, email).Success?
    requires Users.FindOneByEmail(rows, email).value.password == None
    ensures GetAuthenticatedUser(TableLookup(rows), PolicyComparator(env, b), email, given)
            == Failure(Foreign(ILLEGAL_ARGUMENTS))
  {
  }
}
