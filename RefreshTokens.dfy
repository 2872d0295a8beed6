/**
 * The refresh-token queries of src/db/queries/refresh_tokens.ts over an
 * in-memory table keyed by token value. The clock (`new Date()`) is the
 * parameter `now`; timestamps are milliseconds since the epoch.
 */
module RefreshTokens {
  import opened Wrappers

  /** One row of the refresh-token table. */
  datatype RefreshToken = RefreshToken(
    token: string,
    userId: string,
    expiresAt: int,
    createdAt: int,
    updatedAt: int,
    revokedAt: Option<int>)

  /** The table, as a map from the unique token column to its row. */
  type Table = map<string, RefreshToken>

  /** Every row is stored under its own token. */
  ghost predicate KeyedByToken(rows: Table)
  {
    forall t :: t in rows ==> rows[t].token == t
  }

  /** `insert(...).values(row)`: a new row under a token not yet present. */
  function Insert(rows: Table, row: RefreshToken): (r: Table)
    requires row.token !in rows
    ensures r.Keys == rows.Keys + {row.token}
    ensures r[row.token] == row
    ensures forall t :: t in rows ==> r[t] == rows[t]
    ensures KeyedByToken(rows) ==> KeyedByToken(r)
  {
    rows[row.token := row]
  }

  /** `select ... where token = t`: the row with exactly this token, if any. */
  function Lookup(rows: Table, token: string): (r: Option<RefreshToken>)
    ensures r.Some? <==> token in rows
    ensures r.Some? ==> r.value == rows[token]
    ensures r.Some? && KeyedByToken(rows) ==> r.value.token == token
  {
    if token in rows then Some(rows[token]) else None
  }

  /** The `set` clause of the revoke query applied to one row: the two timestamps move, nothing else. */
  function Revoke(row: RefreshToken, now: int): (r: RefreshToken)
    ensures r.revokedAt == Some(now) && r.updatedAt == now
    ensures r.token == row.token && r.userId == row.userId
    ensures r.expiresAt == row.expiresAt && r.createdAt == row.createdAt
  {
    row.(revokedAt := Some(now), updatedAt := now)
  }

  /** `update ... set revokedAt, updatedAt where token = t`: zero or one row changes. */
  function RevokeWhere(rows: Table, token: string, now: int): (r: Table)
    ensures r.Keys == rows.Keys
    ensures token in rows ==> r[token] == Revoke(rows[token], now)
    ensures forall t :: t in rows && t != token ==> r[t] == rows[t]
    ensures token !in rows ==> r == rows
    ensures KeyedByToken(rows) ==> KeyedByToken(r)
  {
    if token in rows then rows[token := Revoke(rows[token], now)] else rows
  }

  /** The inserted row is found by its token, and every other lookup is as before. */
  lemma LookupAfterInsert(rows: Table, row: RefreshToken, t: string)
    requires row.token !in rows
    ensures Lookup(Insert(rows, row), row.token) == Some(row)
    ensures t != row.token ==> Lookup(Insert(rows, row), t) == Lookup(rows, t)
  {
  }

  /** After a revoke, looking the token up gives a row revoked at `now`. */
  lemma LookupAfterRevoke(rows: Table, token: string, now: int)
    requires token in rows
    ensures Lookup(RevokeWhere(rows, token, now), token).Some?
    ensures Lookup(RevokeWhere(rows, token, now), token).value.revokedAt == Some(now)
  {
  }

  /** A revoked row stays revoked through any later insert or revoke. */
  lemma RevokedStaysRevoked(rows: Table, t: string, token: string, now: int, row: RefreshToken)
    requires t in rows && rows[t].revokedAt.Some?
    ensures RevokeWhere(rows, token, now)[t].revokedAt.Some?
    ensures row.token !in rows ==> Insert(rows, row)[t].revokedAt.Some?
  {
  }

  /**
   * Revoking again keeps the row revoked but overwrites the timestamp: the
   * second revoke wins, so the operation is not idempotent on `revokedAt`.
   */
  lemma RevokeTwice(rows: Table, token: string, first: int, second: int)
    requires token in rows
    ensures RevokeWhere(RevokeWhere(rows, token, first), token, second) == RevokeWhere(rows, token, second)
    ensures first != second ==>
      RevokeWhere(RevokeWhere(rows, token, first), token, second) != RevokeWhere(rows, token, first)
  {
  }

  /** The refresh-token table the queries act on. */
  class RefreshTokenTable {
    var rows: Table

    ghost predicate Valid()
      reads this
    {
      KeyedByToken(rows)
    }

    constructor ()
      ensures Valid() && rows == map[]
    {
      rows := map[];
    }

    /** `createRefreshToken(row)`: inserts the row and returns it. */
    method CreateRefreshToken(row: RefreshToken) returns (result: RefreshToken)
      requires Valid()
      requires row.token !in rows
      modifies this
      ensures Valid()
      ensures rows == Insert(old(rows), row)
      ensures result == row
    {
      rows := rows[row.token := row];
      result := row;
    }

    /** `getRefreshTokenByToken(token)`: the matching row, or `undefined`. */
    method GetRefreshTokenByToken(token: string) returns (result: Option<RefreshToken>)
      requires Valid()
      ensures result == Lookup(rows, token)
      ensures result.Some? <==> token in rows
      ensures result.Some? ==> result.value == rows[token] && result.value.token == token
    {
      if token in rows {
        result := Some(rows[token]);
      } else {
        result := None;
      }
    }

    /** `revokeRefreshToken(token)` at time `now`; an unknown token changes nothing and is no error. */
    method RevokeRefreshToken(token: string, now: int)
      requires Valid()
      modifies this
      ensures Valid()
      ensures rows == RevokeWhere(old(rows), token, now)
    {
      if token in rows {
        var row := rows[token];
        rows := rows[token := row.(revokedAt := Some(now), updatedAt := now)];
      }
    }
  }
}
