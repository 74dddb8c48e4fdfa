/**
 * Clients of the model, walking through one login lifecycle: register a
 * user, refuse a second one with the same email, log in with the right and
 * a wrong password, open a session, find it, log out and find it gone.
 * Everything asserted follows from the contracts of the operations and the lemmas beside them.
 */
module Scenario {
  import opened Wrappers
  import opened Errors
  import Password
  import Users
  import Sessions
  import Authentication
  import Ascii

  method Registration(env: Password.Env, b: Password.Bcrypt, salt: string, t: int)
  {
    // the first user becomes the admin, and the input object now holds the hash
    var users := new Users.UserTable();
    var aliceInput := new Users.UserInput(Some("alice"), Some("a@x.com"), Some("secret123"));
    var created := users.Create(aliceInput, env, b, salt, t);
    assert created.Success? && created.value.role == Users.ADMIN;
    assert created.value.password == Some(Password.Hash(env, b, "secret123", salt));
    assert aliceInput.password == created.value.password;
  }

  lemma UpperCaseEmail()
    ensures Ascii.SameIgnoringCase("A@X.COM", "a@x.com")
  {
    assert Ascii.Lower("A@X.COM") == "a@x.com";
    assert Ascii.Lower("a@x.com") == "a@x.com";
  }

  method DuplicateEmail(env: Password.Env, b: Password.Bcrypt, salt1: string, salt2: string, t: int)
  {
    var users := new Users.UserTable();
    var aliceInput := new Users.UserInput(Some("alice"), Some("a@x.com"), Some("secret123"));
    var created := users.Create(aliceInput, env, b, salt1, t);
    assert created.Success? && users.rows == [created.value];
    // an email already taken, written in other case, is refused
    UpperCaseEmail();
    assert Users.EmailIs(users.rows[0], "A@X.COM");
    var dupInput := new Users.UserInput(Some("carol"), Some("A@X.COM"), Some("pw"));
    var dup := users.Create(dupInput, env, b, salt2, t);
    assert dup == Failure(Users.EmailTaken);
    assert users.rows == [created.value];
  }

  method Login(env: Password.Env, b: Password.Bcrypt, salt1: string, t: int)
    requires Password.Sound(b) && Password.Binding(b)
  {
    var users := new Users.UserTable();
    var aliceInput := new Users.UserInput(Some("alice"), Some("a@x.com"), Some("secret123"));
    var created := users.Create(aliceInput, env, b, salt1, t);
    assert created.Success?;
    var alice := created.value;

    // login
    var lookup := Authentication.TableLookup(users.rows);
    var compare := Authentication.PolicyComparator(env, b);
    Authentication.AuthenticateAgainstTable(users.rows, env, b, 0, "a@x.com", "secret123", "secret123", salt1);
    var ok := Authentication.GetAuthenticatedUser(lookup, compare, "a@x.com", "secret123");
    assert ok == Success(alice);
    Authentication.AuthenticateAgainstTable(users.rows, env, b, 0, "a@x.com", "secret123", "wrong", salt1);
    var refused := Authentication.GetAuthenticatedUser(lookup, compare, "a@x.com", "wrong");
    assert refused == Failure(Raised(Authentication.CredentialsMismatch));
    assert ToJson(refused.error.error).status_code == 401;

  }

  method SessionLifecycle(userId: int, randomBytes: seq<Sessions.byte>, t: int)
    requires |randomBytes| == Sessions.TOKEN_BYTES
  {
    // a session for the authenticated user
    var sessions := new Sessions.SessionTable();
    var s := sessions.Create(userId, randomBytes, t);
    Sessions.CreateThenFind([], 1, randomBytes, userId, t, t);
    assert Sessions.FindOneValidByToken(sessions.rows, s.token, t) == Success(s);

    // logout
    var expired := sessions.ExpireById(s.id, t);
    assert sessions.rows == Sessions.UpdateWhereId([s], s.id, Sessions.Expiry(t));
    Sessions.ExpireInvalidates([s], 0, t, t, t);
    assert Sessions.FindOneValidByToken(sessions.rows, s.token, t).Failure?;
    assert Sessions.FindOneValidByToken(sessions.rows, s.token, t) == Failure(Sessions.NoActiveSession);
  }
}
