/**
 * The session store of models/session.ts. The `sessions` table is a
 * sequence of rows in insertion order; `create`, `renew` and `expireById`
 * change it, `findOneValidByToken` reads it. Time is a number of
 * milliseconds passed in as `now`.
 */
module Sessions {
  import opened Wrappers
  import opened Errors
  import Tables

  /** 30 days. */
  const EXPIRATION_IN_MILLISECONDS: int := 60 * 60 * 24 * 30 * 1000

  /** Postgres `interval '1 year'`, taken as 365 days. */
  const ONE_YEAR_IN_MILLISECONDS: int := 60 * 60 * 24 * 365 * 1000

  /** The number of random bytes a token is made from. */
  const TOKEN_BYTES: nat := 48

  newtype byte = x: int | 0 <= x < 256

  datatype Session = Session(id: int, token: string, userId: int, expiresAt: int, createdAt: int, updatedAt: int)

  /**
   * `expires_at > NOW()`: a session is valid up to, but not at, its expiry
   * instant; a row is never valid for more than its remaining lifetime.
   */
  predicate ValidAt(s: Session, now: int): (valid: bool)
    ensures valid <==> now < s.expiresAt
    ensures valid ==> s.expiresAt - now >= 1
  {
    s.expiresAt > now
  }

  // Tokens: `crypto.randomBytes(48).toString("hex")`

  const HEX_DIGITS := "0123456789abcdef"

  predicate IsHexDigit(c: char) {
    '0' <= c <= '9' || 'a' <= c <= 'f'
  }

  function HexValue(c: char): (v: int)
    requires IsHexDigit(c)
    ensures 0 <= v < 16 && HEX_DIGITS[v] == c
  {
    if '0' <= c <= '9' then c as int - '0' as int else c as int - 'a' as int + 10
  }

  /** Lower-case hexadecimal, two digits per byte, high nibble first. */
  function HexEncode(bytes: seq<byte>): (t: string)
    ensures |t| == 2 * |bytes|
    ensures forall i :: 0 <= i < |t| ==> IsHexDigit(t[i])
  {
    if bytes == [] then []
    else [HEX_DIGITS[bytes[0] as int / 16], HEX_DIGITS[bytes[0] as int % 16]] + HexEncode(bytes[1..])
  }

  function HexDecode(t: string): Option<seq<byte>>
    decreases |t|
  {
    if t == [] then Some([])
    else if |t| < 2 || !IsHexDigit(t[0]) || !IsHexDigit(t[1]) then None
    else match HexDecode(t[2..])
      case None => None
      case Some(rest) => Some([(HexValue(t[0]) * 16 + HexValue(t[1])) as byte] + rest)
  }

  lemma HexValueOfDigit(n: int)
    requires 0 <= n < 16
    ensures HexValue(HEX_DIGITS[n]) == n
  {
    var c := HEX_DIGITS[n];
    assert HEX_DIGITS[HexValue(c)] == c;
    if n < 10 {
      assert c as int == '0' as int + n;
    } else {
      assert c as int == 'a' as int + n - 10;
    }
  }

  lemma {:induction false} HexRoundTrip(bytes: seq<byte>)
    ensures HexDecode(HexEncode(bytes)) == Some(bytes)
  {
    if bytes != [] {
      var t := HexEncode(bytes);
      var x := bytes[0] as int;
      var hi, lo := x / 16, x % 16;
      assert t[0] == HEX_DIGITS[hi] && t[1] == HEX_DIGITS[lo];
      assert t[2..] == HexEncode(bytes[1..]);
      HexValueOfDigit(hi);
      HexValueOfDigit(lo);
      assert hi * 16 + lo == x;
      assert IsHexDigit(t[0]) && IsHexDigit(t[1]);
      HexRoundTrip(bytes[1..]);
      assert HexDecode(t) == Some([(HexValue(t[0]) * 16 + HexValue(t[1])) as byte] + bytes[1..]);
      assert [(HexValue(t[0]) * 16 + HexValue(t[1])) as byte] + bytes[1..] == bytes;
    }
  }

  /** Distinct random bytes give distinct tokens. */
  lemma HexEncodeInjective(a: seq<byte>, b: seq<byte>)
    ensures HexEncode(a) == HexEncode(b) ==> a == b
  {
    HexRoundTrip(a);
    HexRoundTrip(b);
  }

  function NewToken(randomBytes: seq<byte>): (token: string)
    requires |randomBytes| == TOKEN_BYTES
    ensures |token| == 96
    ensures forall i :: 0 <= i < |token| ==> IsHexDigit(token[i])
    ensures HexDecode(token) == Some(randomBytes)
  {
    HexRoundTrip(randomBytes);
    HexEncode(randomBytes)
  }

  // Reading the table

  /** The error for a token with no valid session, whether it is unknown or expired. */
  const NoActiveSession := NewUnauthorizedError(ErrorParams(
    Some("Usuário não possui sessão ativa."),
    Some("Verifique se este usuário está logado e tente novamente."), None))

  function FindOneValidByToken(rows: seq<Session>, token: string, now: int): (r: Result<Session, AppError>)
    ensures r.Success? ==> r.value in rows && r.value.token == token && ValidAt(r.value, now)
    ensures r.Failure? <==> forall i :: 0 <= i < |rows| ==> !(rows[i].token == token && ValidAt(rows[i], now))
    ensures r.Failure? ==> r.error == NoActiveSession && r.error.kind.StatusCode() == 401
  {
    match Tables.FirstIndex(rows, (s: Session) => s.token == token && ValidAt(s, now))
    case Some(k) => Success(rows[k])
    case None => Failure(NoActiveSession)
  }

  // Changing the table

  /** The row `create` inserts: `expires_at = now + 30 days` and the audit times. */
  function NewSession(id: int, token: string, userId: int, now: int): (s: Session)
    ensures s.expiresAt - now == 2592000000
    ensures ValidAt(s, now) && !ValidAt(s, now + EXPIRATION_IN_MILLISECONDS)
  {
    Session(id, token, userId, now + EXPIRATION_IN_MILLISECONDS, now, now)
  }

  /** The two `UPDATE ... SET expires_at = ..., updated_at = NOW()` statements. */
  datatype Change = Renewal(now: int) | Expiry(now: int)

  function Apply(c: Change, s: Session): (t: Session)
    ensures t.id == s.id && t.token == s.token && t.userId == s.userId && t.createdAt == s.createdAt
    ensures t.updatedAt == c.now
    ensures c.Renewal? ==> t.expiresAt == c.now + EXPIRATION_IN_MILLISECONDS
    ensures c.Expiry? ==> t.expiresAt == s.expiresAt - ONE_YEAR_IN_MILLISECONDS
  {
    match c
    case Renewal(now) => s.(expiresAt := now + EXPIRATION_IN_MILLISECONDS, updatedAt := now)
    case Expiry(now) => s.(expiresAt := s.expiresAt - ONE_YEAR_IN_MILLISECONDS, updatedAt := now)
  }

  /** `UPDATE sessions SET ... WHERE id = $1`: every row with that id changes, no other row does. */
  function UpdateWhereId(rows: seq<Session>, id: int, c: Change): (r: seq<Session>)
    ensures |r| == |rows|
    ensures forall i :: 0 <= i < |rows| ==> r[i] == if rows[i].id == id then Apply(c, rows[i]) else rows[i]
  {
    if rows == [] then []
    else [if rows[0].id == id then Apply(c, rows[0]) else rows[0]] + UpdateWhereId(rows[1..], id, c)
  }

  /** The key columns, as functions for `Tables.KeysUnique`. */
  function SessionId(s: Session): int { s.id }
  function SessionToken(s: Session): string { s.token }

  /** With unique ids, the `WHERE id = $1` update is a change of the one row found. */
  lemma PointUpdate(rows: seq<Session>, k: nat, c: Change)
    requires k < |rows| && Tables.KeysUnique(rows, SessionId)
    ensures UpdateWhereId(rows, rows[k].id, c) == rows[k := Apply(c, rows[k])]
  {
  }

  /** An update whose id matches no row changes nothing. */
  lemma UpdateMissingId(rows: seq<Session>, id: int, c: Change)
    requires forall i :: 0 <= i < |rows| ==> rows[i].id != id
    ensures UpdateWhereId(rows, id, c) == rows
  {
  }

  /** The session table. */
  class SessionTable {
    var rows: seq<Session>
    /** The next value of the serial `id` column. */
    var nextId: int

    ghost predicate Valid()
      reads this
    {
      && nextId >= 1
      && (forall i :: 0 <= i < |rows| ==> 1 <= rows[i].id < nextId)
      && Tables.KeysUnique(rows, SessionId)
    }

    constructor ()
      ensures Valid() && rows == []
    {
      rows := [];
      nextId := 1;
    }

    /** `create(userId)`; `randomBytes` is what `crypto.randomBytes(48)` drew. */
    method Create(userId: int, randomBytes: seq<byte>, now: int) returns (s: Session)
      requires Valid()
      requires |randomBytes| == TOKEN_BYTES
      modifies this
      ensures Valid()
      ensures s == NewSession(old(nextId), NewToken(randomBytes), userId, now)
      ensures rows == old(rows) + [s]
      ensures nextId == old(nextId) + 1
    {
      s := NewSession(nextId, NewToken(randomBytes), userId, now);
      rows := rows + [s];
      nextId := nextId + 1;
    }

    /** `renew(sessionId)`: no validity check; nothing is returned when no row has the id. */
    method Renew(sessionId: int, now: int) returns (r: Option<Session>)
      requires Valid()
      modifies this
      ensures Valid() && nextId == old(nextId)
      ensures rows == UpdateWhereId(old(rows), sessionId, Renewal(now))
      ensures r.Some? <==> exists i :: 0 <= i < |old(rows)| && old(rows)[i].id == sessionId
      ensures r.Some? ==> r.value in rows && r.value.id == sessionId
                          && r.value.expiresAt == now + EXPIRATION_IN_MILLISECONDS
    {
      r := UpdateById(sessionId, Renewal(now));
    }

    /** `expireById(sessionId)`: moves the expiry one year back from its current value. */
    method ExpireById(sessionId: int, now: int) returns (r: Option<Session>)
      requires Valid()
      modifies this
      ensures Valid() && nextId == old(nextId)
      ensures rows == UpdateWhereId(old(rows), sessionId, Expiry(now))
      ensures r.Some? <==> exists i :: 0 <= i < |old(rows)| && old(rows)[i].id == sessionId
      ensures r.Some? ==> r.value in rows && r.value.id == sessionId
                          && exists i :: 0 <= i < |old(rows)| && old(rows)[i].id == sessionId
                                         && r.value.expiresAt == old(rows)[i].expiresAt - ONE_YEAR_IN_MILLISECONDS
    {
      r := UpdateById(sessionId, Expiry(now));
    }

    /** The `UPDATE ... WHERE id = $1 RETURNING *` shared by renew and expireById. */
    method UpdateById(sessionId: int, c: Change) returns (r: Option<Session>)
      requires Valid()
      modifies this
      ensures Valid() && nextId == old(nextId)
      ensures rows == UpdateWhereId(old(rows), sessionId, c)
      ensures r.Some? <==> exists i :: 0 <= i < |old(rows)| && old(rows)[i].id == sessionId
      ensures r.Some? ==> exists i :: 0 <= i < |old(rows)| && old(rows)[i].id == sessionId
                                      && r.value == Apply(c, old(rows)[i]) && r.value == rows[i]
    {
      var k := Tables.FirstIndex(rows, (s: Session) => s.id == sessionId);
      if k.Some? {
        PointUpdate(rows, k.value, c);
        var updated := Apply(c, rows[k.value]);
        rows := rows[k.value := updated];
        r := Some(updated);
      } else {
        UpdateMissingId(rows, sessionId, c);
        r := None;
      }
    }
  }

  // What the operations promise together

  /**
   * A session just created is found by its token for exactly its lifetime,
   * provided the token is new to the table.
   */
  lemma CreateThenFind(rows: seq<Session>, id: int, randomBytes: seq<byte>, userId: int, now: int, later: int)
    requires |randomBytes| == TOKEN_BYTES
    requires forall i :: 0 <= i < |rows| ==> rows[i].token != NewToken(randomBytes)
    ensures var s := NewSession(id, NewToken(randomBytes), userId, now);
            var r := FindOneValidByToken(rows + [s], s.token, later);
            (r.Success? <==> later < now + EXPIRATION_IN_MILLISECONDS) && (r.Success? ==> r.value == s)
  {
    var s := NewSession(id, NewToken(randomBytes), userId, now);
    var all := rows + [s];
    assert all[|rows|] == s;
    var r := FindOneValidByToken(all, s.token, later);
    if r.Success? {
      var i :| 0 <= i < |all| && all[i] == r.value;
      assert i == |rows|;
    }
  }

  /** A renewed row is valid again for 30 days, however long ago it expired. */
  lemma RenewRevives(rows: seq<Session>, k: nat, now: int, later: int)
    requires k < |rows| && Tables.KeysUnique(rows, SessionId) && Tables.KeysUnique(rows, SessionToken)
    requires now <= later < now + EXPIRATION_IN_MILLISECONDS
    ensures var after := UpdateWhereId(rows, rows[k].id, Renewal(now));
            FindOneValidByToken(after, rows[k].token, later) == Success(after[k])
  {
    var after := UpdateWhereId(rows, rows[k].id, Renewal(now));
    var token := rows[k].token;
    assert after[k].token == token && ValidAt(after[k], later);
    var f := Tables.FirstIndex(after, (s: Session) => s.token == token && ValidAt(s, later));
    assert f.Some?;
    assert after[f.value].token == rows[f.value].token;
    assert f.value == k;
  }

  /**
   * Expiring a session that was created or last renewed at time `t` (so that
   * its expiry is at most `t` plus 30 days) leaves it invalid at every time
   * from `t` on: one year back from the expiry lies before `t`.
   */
  lemma ExpireInvalidates(rows: seq<Session>, k: nat, t: int, now: int, later: int)
    requires k < |rows| && Tables.KeysUnique(rows, SessionId) && Tables.KeysUnique(rows, SessionToken)
    requires rows[k].expiresAt <= t + EXPIRATION_IN_MILLISECONDS
    requires later >= t
    ensures FindOneValidByToken(UpdateWhereId(rows, rows[k].id, Expiry(now)), rows[k].token, later).Failure?
  {
    var after := UpdateWhereId(rows, rows[k].id, Expiry(now));
    forall i | 0 <= i < |after|
      ensures !(after[i].token == rows[k].token && ValidAt(after[i], later))
    {
      if after[i].token == rows[k].token {
        assert rows[i].token == rows[k].token;
        assert i == k;
      }
    }
  }

  /**
   * The lifetime bound `expires_at <= updated_at + 30 days` holds of every row
   * as it is created or renewed, and expiring keeps it as long as the clock
   * does not run backwards; an expired row then lies in the past of its own
   * last update.
   */
  lemma ExpiryBoundKept(s: Session, c: Change)
    requires s.expiresAt <= s.updatedAt + EXPIRATION_IN_MILLISECONDS
    requires c.now >= s.updatedAt
    ensures Apply(c, s).expiresAt <= Apply(c, s).updatedAt + EXPIRATION_IN_MILLISECONDS
    ensures c.Expiry? ==> !ValidAt(Apply(c, s), Apply(c, s).updatedAt)
    ensures c.Renewal? ==> Apply(c, s).expiresAt >= s.expiresAt
  {
  }
}
