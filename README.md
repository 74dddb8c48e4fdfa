# Authentication and session layer of an admin web application

This project models, in Dafny, the authentication and session layer of a
small Next.js admin application. It covers five parts:

- the **session store** (`models/session.ts`): create, look up, renew and
  expire opaque session tokens;
- the **user directory** (`models/user.ts`): create, look up and update
  users, with case-insensitive uniqueness and the single-admin rule;
- the **authentication service** (`models/authentication.ts`): check an email
  and a password, and turn every credential failure into one generic error;
- the **error taxonomy** (`infra/errors.ts`);
- the **password policy** (`models/password.ts`).

Every SQL table is an in-memory table, and every query is an operation on it.

## Structure

| file | module | models |
|---|---|---|
| `wrappers.dfy` | `Wrappers` | `Option`, `Result`, `Outcome`: a value, or a thrown error |
| `errors.dfy` | `Errors` | the four error classes, their defaults, `toJSON` |
| `password.dfy` | `Password` | the pepper, the cost factor, `hash`, `compare` |
| `ascii.dfy` | `Ascii` | `LOWER()` / `toLowerCase()` on ASCII letters |
| `tables.dfy` | `Tables` | `WHERE ... LIMIT 1` and `COUNT(*)` on a table |
| `session.dfy` | `Sessions` | the `sessions` table (class `SessionTable`) and its lemmas |
| `user.dfy` | `Users` | the `users` table (class `UserTable`), the input object (class `UserInput`) |
| `authentication.dfy` | `Authentication` | `getAuthenticatedUser` over a lookup and a compare oracle |
| `scenario.dfy` | `Scenario` | client methods that walk through a register, login and logout sequence |

### How the source maps onto Dafny

- **State.** The two tables are classes whose `rows: seq<...>` field the
  methods reassign. Rows are kept in insertion order. A `nextId` field plays
  the serial `id` column.
- **Row invariants.** Each table has a `Valid()` invariant: ids are unique.
  The users table adds at most one admin, and usernames and non-NULL emails
  unique ignoring case. Every state-changing method keeps `Valid()`.
- **State-changing methods.** Each one states its new table as a function of
  the old one, for example `rows == UpdateWhereId(old(rows), id, Renewal(now))`.
  The properties the source promises are proved as lemmas about those
  functions.
- **Read-only queries** (`findOneBy*`, `validateUnique*`, `findAll`,
  `findOneValidByToken`) are functions over the rows. They return a `Result`
  or an `Outcome` carrying the exact error the source throws.
- **Authentication** is one pure function, so it cannot write to any table.
  It takes the user lookup and `password.compare` as function-valued
  parameters that may throw any error.
- **Time.** Time is an integer number of milliseconds, `now`, passed into
  each operation. `Date.now()` and SQL `NOW()` both read that one value.
- **bcrypt** is a parameter, `Password.Bcrypt`, holding a hash function and a
  compare function. The random salt is a parameter of `hash`. Two
  assumptions, stated as predicates and required only by the lemmas that need
  them, describe it:
  - `Sound`: a hash accepts its own input.
  - `Binding`: a hash accepts no other input.
- **Randomness.** `crypto.randomBytes(48)` becomes a 48-byte parameter. The
  token is its lower-case hex encoding, and a round-trip lemma shows the
  bytes can be recovered from it.

### Behaviour of the code worth knowing (the model follows the code)

- **Renewing an expired session.** One would expect an expired session never
  to come back through a renewal. The code's `renew` updates the row by id
  without checking validity, so it revives a session that `expireById`
  pushed into the past (`Sessions.RenewRevives`). Only the HTTP layer's habit
  of calling `findOneValidByToken` before `renew` prevents this in practice.
- **Renewal does not always extend.** One would expect `renew` to move
  `expires_at` strictly later. The code sets it to `now + 30 days`. That is no
  earlier than the old value only while `expires_at <= updated_at + 30 days`
  and the clock has not gone backwards (`Sessions.ExpiryBoundKept`). At the
  same instant as the last renewal it is equal, not greater.
- **Roles.** The non-admin role is stored as `"commum"`, not as an English
  word such as "member".
- **`update` writes NULL.** `update` writes `email` and `password` straight
  from its input. A call that leaves either one out writes NULL into that
  column. Afterwards:
  - the user cannot be found by email;
  - logging in fails with bcrypt's own exception, not with an
    `UnauthorizedError` (`Authentication.NullPasswordEscapes`).

  The `users` schema is not part of this model. A NOT NULL constraint there
  would turn this into a database error instead.

## Model

| member | source | states |
|---|---|---|
| `Errors.NewServiceError` | infra/errors.ts:7-20 | name "ServiceError", status 503; message is the supplied one unless absent or empty, then the default; the action is always "Verifique se o serviço está disponível.", whatever is supplied; the cause is kept |
| `Errors.NewUnauthorizedError` | infra/errors.ts:33-46 | name "UnauthorizedError", status 401; message and action each fall back to their defaults when absent or empty (so also for the empty argument `NoParams`) |
| `Errors.NewValidationError` | infra/errors.ts:58-70 | name "ValidationError", status 409; message and action fall back to their defaults when absent or empty |
| `Errors.NewNotFoundError` | infra/errors.ts:82-94 | name "NotFoundError", status 404; message and action fall back to their defaults when absent or empty |
| `Errors.ToJson` | infra/errors.ts:22-29 | the body is exactly name, message, action and `status_code` equal to the status code |
| `Errors.JsonRoundTrip` | infra/errors.ts:48-55 | the serialised body determines the error up to its cause: reading it back gives the kind, message and action |
| `Errors.JsonDeterminesError` | infra/errors.ts:72-79 | two errors serialise alike if and only if they agree on kind, message and action |
| `Errors.NeverEmpty` | infra/errors.ts:7-94 | every constructor yields its own kind and a non-empty message and action |
| `Password.Pepper` | models/password.ts:3 | the `PEPPER` value when set and non-empty, otherwise "Bell_Pepper"; never empty |
| `Password.NumberOfRounds` | models/password.ts:11-13 | 14 if and only if `NODE_ENV` is "production", 1 otherwise |
| `Password.HashThenCompare` | models/password.ts:5-21 | with a sound bcrypt, `compare(p, hash(p))` holds for every password, cost and salt |
| `Password.CompareOnlyAcceptsHashedPassword` | models/password.ts:15-21 | with a sound and binding bcrypt, `compare(q, hash(p))` holds if and only if `q == p` |
| `Password.PepperCoupling` | models/password.ts:3-20 | a hash made under one environment verifies under another if and only if their peppers agree, whatever cost each picks |
| `Password.Spiced` | models/password.ts:7 | the spicy password is the plaintext followed by the pepper: the plaintext is its prefix and the pepper its suffix |
| `Password.Hash` | models/password.ts:5-9 | bcrypt is called on the spicy password at the policy's cost and the given salt; with a sound bcrypt the result accepts that spicy password |
| `Password.Compare` | models/password.ts:15-21 | the answer is bcrypt's comparison of the spicy provided password with the stored hash; with a binding bcrypt, an accepted hash can only have been made from that spicy password |
| `Ascii.SameIgnoringCasePointwise` | models/user.ts:102 | two strings are equal ignoring case if and only if they have the same length and each pair of characters is equal once lower-cased |
| `Ascii.Lower` | models/user.ts:102 | same length; each character lower-cased, ASCII letters only |
| `Tables.FirstIndex` | models/session.ts:24-36 | the first row, in table order, that satisfies the condition; none exactly when no row does |
| `Tables.Count` | models/user.ts:28-32 | the count is zero exactly when no row satisfies the condition |
| `Sessions.HexEncode` | models/session.ts:50 | two hexadecimal digits per byte |
| `Sessions.HexRoundTrip` | models/session.ts:50 | decoding the hex token gives back the random bytes |
| `Sessions.HexEncodeInjective` | models/session.ts:50 | different random bytes give different tokens |
| `Sessions.NewToken` | models/session.ts:50 | a token is 96 lower-case hexadecimal characters and encodes the 48 bytes |
| `Sessions.ValidAt` | models/session.ts:31 | `expires_at > NOW()`: valid strictly before the expiry instant and not at it |
| `Sessions.FindOneValidByToken` | models/session.ts:18-47 | a returned row is in the table, has exactly that token and expires strictly after `now`; it fails if and only if no such row exists, always with the one "Usuário não possui sessão ativa." UnauthorizedError (401), so an unknown and an expired token look the same |
| `Sessions.NewSession` | models/session.ts:49-51 | a new row expires exactly 2,592,000,000 ms (30 days) after `now`: valid at `now`, no longer valid 30 days later |
| `Sessions.Apply` | models/session.ts:88-123 | renew sets `expires_at = now + 30 days`; expire subtracts one year from the current `expires_at`; both set `updated_at = now` and keep id, token, user id and `created_at` |
| `Sessions.UpdateWhereId` | models/session.ts:94-95 | the rows with the id are changed, every other row is left as it was, and the length is kept |
| `Sessions.PointUpdate` | models/session.ts:118-119 | with unique ids, the update by id changes exactly the one row found |
| `Sessions.UpdateMissingId` | models/session.ts:94-102 | an id that no row has leaves the table unchanged |
| `Sessions.SessionTable.Create` | models/session.ts:49-75 | appends exactly one row with the next id, the token of the random bytes, the user id and `expires_at = now + 30 days`, and returns it |
| `Sessions.SessionTable.Renew` | models/session.ts:77-104 | the renew update, with no validity check; the row is returned if and only if one has the id, and nothing is thrown otherwise |
| `Sessions.SessionTable.ExpireById` | models/session.ts:106-128 | the expire update; the returned row's expiry is its old expiry minus one year; nothing is returned if no row has the id |
| `Sessions.SessionTable.UpdateById` | models/session.ts:83-102 | `UPDATE ... WHERE id = $1 RETURNING *`: the table becomes `UpdateWhereId` of the old one, and the returned row is the changed one |
| `Sessions.CreateThenFind` | models/session.ts:49-53 | a new session with a fresh token is found by it, and is that row, at every time before its expiry and at no time after |
| `Sessions.RenewRevives` | models/session.ts:77-99 | after a renew at `now`, the row is found by its token for the next 30 days, even if it had expired |
| `Sessions.ExpireInvalidates` | models/session.ts:112-117 | a session created or last renewed at time `t`, once expired, is not found by its token at any time from `t` on |
| `Sessions.ExpiryBoundKept` | models/session.ts:113-117 | with a clock that does not run backwards, `expires_at <= updated_at + 30 days` is kept by both updates; an expired row is invalid already at its own `updated_at`; renewing never moves the expiry back |
| `Users.UsernameIs` | models/user.ts:102 | `LOWER(username) = LOWER($1)`: a match has the same length as the given name (character-wise equality ignoring case is `Ascii.SameIgnoringCasePointwise`) |
| `Users.EmailIs` | models/user.ts:121 | `LOWER(email) = LOWER($1)`: a NULL email matches nothing, and a match has the same length as the given email |
| `Users.FindOneById` | models/user.ts:77-94 | a returned row has exactly that id; it fails if and only if no row has it, with the id NotFoundError |
| `Users.FindOneByUsername` | models/user.ts:96-113 | a returned row's username matches ignoring case; it fails if and only if none matches, with the username NotFoundError |
| `Users.FindOneByEmail` | models/user.ts:115-132 | a returned row's email matches ignoring case; it fails if and only if none matches, with the email NotFoundError |
| `Users.ValidateUniqueUsername` | models/user.ts:134-148 | fails if and only if some username matches ignoring case, with "Username ja existe" (Validation) |
| `Users.ValidateUniqueEmail` | models/user.ts:150-162 | fails if and only if some email matches ignoring case, with "Email ja existe" (Validation) |
| `Users.AdminCount` | models/user.ts:28-32 | the admin count is positive exactly when some row has role "admin" |
| `Users.RoleForNewUser` | models/user.ts:34-35 | "admin" if and only if no row is an admin, otherwise "commum" |
| `Users.ValidateUniqueAdmin` | models/user.ts:41-57 | fails if and only if the role is "admin" and an admin exists |
| `Users.AdminCheckPassesForAssignedRole` | models/user.ts:28-44 | run one after the other, the role choice and the admin check never disagree, so the check never throws |
| `Users.AtMostOneAdmin` | models/user.ts:45-50 | under the table invariant, the admin count is at most one |
| `Users.FindAll` | models/user.ts:223-228 | one entry per row, in order, with every column but the password |
| `Users.CreateCheck` | models/user.ts:22-24 | a taken email is reported before the username is looked at; only a free email and a free username pass |
| `Users.UpdateCheck` | models/user.ts:177-188 | a supplied email is always checked; a supplied username only when it differs from the current one ignoring case; email first |
| `Users.UpdateRejectsOwnEmail` | models/user.ts:177-179 | resubmitting one's own email, in any case, is refused as "Email ja existe" |
| `Users.UpdateAcceptsOwnUsername` | models/user.ts:181-188 | re-casing one's own username raises no error |
| `Users.Updated` | models/user.ts:194-217 | the written row keeps id, role and `created_at`; its username is the merged one; email and password are the input's, NULL when left out |
| `Users.ReplaceWhereId` | models/user.ts:209 | only the rows with that id are replaced |
| `Users.PointReplace` | models/user.ts:212-214 | with unique ids, the update by id replaces exactly the current user's row |
| `Users.HashPasswordInObject` | models/user.ts:164-169 | the input object's password becomes the policy hash of the old one; its other fields are untouched |
| `Users.InsertKeepsInvariant` | models/user.ts:59-74 | appending a row that passed create's checks keeps ids unique, at most one admin, and usernames and emails unique ignoring case |
| `Users.ReplaceKeepsInvariant` | models/user.ts:198-220 | replacing a row by one that passed update's checks keeps the same invariant |
| `Users.UserTable.Create` | models/user.ts:22-75 | on a taken email or username, the create check's error and nothing changes; otherwise one row is appended with the next id, the username, the email, the hashed password and the assigned role, the input object's password and role are overwritten, and the row is returned |
| `Users.UserTable.Update` | models/user.ts:171-196 | an unknown username gives its NotFoundError; a failed update check gives its error with nothing changed; otherwise the current user's row, and only it, is replaced by `Updated`, and the input object's password is hashed in place |
| `Users.UserTable.RunUpdateQuery` | models/user.ts:198-220 | writes the updated row over the current user's row, keeping the table invariant |
| `Authentication.TableLookup` | models/authentication.ts:38 | `user.findOneByEmail` over the table: it succeeds exactly when some row has the email ignoring case, returns such a row, and otherwise throws only the email NotFoundError |
| `Authentication.PolicyComparator` | models/authentication.ts:58-61 | `password.compare` as the service calls it: a stored hash is compared under the policy; a NULL hash makes it throw "Illegal arguments: string, object"; it never throws an UnauthorizedError |
| `Authentication.FindUserByEmail` | models/authentication.ts:36-52 | the lookup's user on success; any failure of the lookup, NotFound or other, becomes "Email não confere." |
| `Authentication.ValidatePassword` | models/authentication.ts:54-69 | passes if and only if compare returns true; false gives "Senha não confere."; an exception of compare is passed on |
| `Authentication.Launder` | models/authentication.ts:25-34 | an UnauthorizedError is replaced by "Dados de autenticação não conferem."; anything else is rethrown unchanged |
| `Authentication.GetAuthenticatedUser` | models/authentication.ts:14-34 | succeeds if and only if the lookup succeeds and compare returns true, and then returns the stored user; a failed lookup and a false compare both give the one generic UnauthorizedError; a compare exception escapes laundered only if it is an UnauthorizedError |
| `Authentication.LookupFailureSkipsCompare` | models/authentication.ts:21-22 | when the lookup fails the outcome does not depend on compare |
| `Authentication.WrongEmailLikeWrongPassword` | models/authentication.ts:26-31 | a wrong email and a wrong password give equal errors, serialised as UnauthorizedError, "Dados de autenticação não conferem.", "Verifique se os dados enviados estão corretos", 401 |
| `Authentication.AuthenticateAgainstTable` | models/authentication.ts:14-24 | against the table and the policy, the user with the matching email is returned for the password its hash was made from, and any other password gets the generic error |
| `Authentication.UnknownEmailRefused` | models/authentication.ts:36-51 | an email no row has gets the generic error, whatever the compare oracle |
| `Authentication.NullPasswordEscapes` | models/authentication.ts:32-33 | a user whose password column is NULL cannot log in, and the error is bcrypt's own, not an UnauthorizedError |

## Left out

- The database engine, SQL text, connection errors and transactions. A
  failing query in the user and session modules is not modelled. The
  authentication lookup may still fail with any error, because it is a
  parameter.
- Concurrency and async/await, including the race between the admin count
  and the insert in `create`. Run sequentially, the admin check never fails.
- `LIMIT 1` without `ORDER BY` picks an unspecified row. The model picks the
  first row in insertion order.
- `LOWER()` and `toLowerCase()` are modelled on ASCII letters only.
- Postgres `interval '1 year'` is modelled as 365 days. A leap-year interval
  is one day longer.
- The JavaScript clock (`Date.now()`) and the database clock (`NOW()`) are
  one value, `now`. The millisecond/microsecond precision of the timestamp
  columns is not modelled.
- bcrypt internals are not modelled. `Password.Binding` idealises bcrypt: a
  real bcrypt reads only the first 72 bytes of its input. For passwords that
  long, the pepper is cut off and longer passwords sharing that prefix
  verify too.
- Authentication.PolicyComparator: that bcryptjs throws "Illegal arguments:
  string, object" when the stored hash is NULL is the library's own argument
  check. The source does not show it; the model takes it as given, and
  `Authentication.NullPasswordEscapes` rests on it.
- `crypto.randomBytes` is a parameter. Sessions do not need unique tokens;
  the lemmas that need them state it as a hypothesis.
- Keys of the `update` input other than `username`, `email` and `password`
  are not modelled. In the source an `id` or `role` key would flow into the
  merged record through the object spread.
- `create` requires the `username`, `email` and `password` keys that its
  TypeScript signature requires.
- `findUserByEmail`'s `if (!storedUser)` branch cannot be taken, because
  the lookup either returns a row or throws. It is not modelled separately.
- `console.log` and `console.error`, the React pages, the API route
  handlers, the migration runner and the test configuration are not
  modelled.
