# Chirpy session helpers in Dafny

A model of three small pieces of the Chirpy backend (an Express/Postgres
service for short posts called chirps):

- **Credential and token-payload helpers** (`src/utils/auth.ts`), module `Auth`:
  - extracting a bearer token or an API key from the `Authorization` header;
  - the claim set `makeJWT` signs (section 4.1 of RFC 7519);
  - the `sub` check `validateJWT` applies to a decoded token;
  - the lower-case base16 encoding that turns 32 random bytes into a refresh
    token (section 8 of RFC 4648).
- **Chirp validation and profanity masking** (`handlerValidateChirp` in
  `src/api/handlers.ts`), module `Handlers`. A body longer than 140
  characters is rejected. Otherwise the body is split on single spaces, every
  word whose lower-case form is `kerfuffle`, `sharbert` or `fornax` becomes
  `****`, and the words are joined again with single spaces.
- **Refresh-token table** (`src/db/queries/refresh_tokens.ts`), module
  `RefreshTokens`. The class `RefreshTokenTable` owns a map from token value
  to row. Its methods insert a row, look one up by exact token, and revoke in
  place by stamping `revokedAt` and `updatedAt`. Each method's contract equates
  its result or the new table with a pure function on the map (`Insert`,
  `Lookup`, `RevokeWhere`); the lemmas about those functions state the
  lifecycle properties.

`Wrappers` holds the `Option` and `Result` types. `None` stands for the
source's `undefined`. `Failure(message)` stands for `throw new Error(message)`.

Inputs that come from outside the code are parameters:
- the header value `req.get("Authorization")`;
- the clock `Date.now()` (milliseconds) and `new Date()` (`now`);
- the bytes from `randomBytes(32)`;
- the object `jwt.verify` returns.

Behaviour of the code worth knowing:
- `getBearerToken` and `getAPIKey` delete the first occurrence of the scheme
  wherever it occurs. They do not check for a prefix, so
  `"Basic Bearer abc"` yields `"Basic abc"` (`Auth.BearerDeletedAnywhere`).
- `validateJWT` only checks that `sub` is a string. The empty string is
  accepted as a subject (`Auth.EmptySubjectAccepted`).
- `makeJWT` puts no bound on `expiresIn`. Zero gives `exp == iat`, and a
  negative lifetime gives `exp < iat`; no lifetime is refused.

## Model

| member | source | states |
|---|---|---|
| `Auth.IndexOfFrom` | src/utils/auth.ts:59 | the index found is an occurrence of the pattern with none before it from `from`; `None` only when there is no occurrence at or after `from` |
| `Auth.DeleteFirst` | src/utils/auth.ts:42-59 | `replace(pat, "")` with a string pattern: the leftmost occurrence is deleted and the rest kept; without an occurrence the string is unchanged |
| `Auth.ExtractCredential` | src/utils/auth.ts:54-60 | fails with "No authorization header" exactly when the header is missing or empty; otherwise the credential is the header with the first occurrence of the scheme deleted |
| `Auth.GetBearerToken` | src/utils/auth.ts:54-61 | error iff the header is missing or `""`; otherwise the header with only the first `"Bearer "` removed, unchanged when there is none |
| `Auth.GetAPIKey` | src/utils/auth.ts:37-44 | the same with `"ApiKey "`: error iff missing or empty, otherwise only the first occurrence removed |
| `Auth.SchemePrefixRoundTrip` | src/utils/auth.ts:42-59 | for any non-empty scheme, a header `scheme + t` gives back exactly `t` |
| `Auth.BearerRoundTrip` | src/utils/auth.ts:59 | `getBearerToken` of `"Bearer " + t` is `t` for every `t` |
| `Auth.APIKeyRoundTrip` | src/utils/auth.ts:42 | `getAPIKey` of `"ApiKey " + t` is `t` for every `t` |
| `Auth.BearerWithoutSchemeUnchanged` | src/utils/auth.ts:59-60 | a non-empty header with no `"Bearer "` anywhere is returned as the token unchanged |
| `Auth.BearerDeletedAnywhere` | src/utils/auth.ts:59 | the scheme is deleted even when it is not a prefix: `"Basic Bearer abc"` gives `"Basic abc"` |
| `Auth.MakeJWTPayload` | src/utils/auth.ts:26-32 | `iss` is `"chirpy"`, `sub` is the user id, `iat` is the clock in whole seconds rounded down, and `exp - iat` is the requested lifetime |
| `Auth.ZeroLifetimeExpiresAtIssue` | src/utils/auth.ts:31 | a lifetime of 0 gives `exp == iat` |
| `Auth.Claims` | src/utils/auth.ts:27-33 | the signed claim object holds exactly `iss`, `sub`, `iat` and `exp`, and the `sub` check on it accepts it and yields the payload's subject |
| `Auth.ValidateJWT` | src/utils/auth.ts:46-52 | succeeds iff the decoded payload is an object whose `sub` is a string, and then returns that string; otherwise fails with "invalid token" |
| `Auth.MakeThenValidate` | src/utils/auth.ts:21-52 | once `jwt.verify` has accepted the token, the `sub` check on the claims `makeJWT` built returns the user id they were built for |
| `Auth.EmptySubjectAccepted` | src/utils/auth.ts:48-51 | a `sub` of `""` passes the check |
| `Auth.HexEncode` | src/utils/auth.ts:65 | two lower-case hex digits per byte, high nibble first; the output is twice as long as the input |
| `Auth.HexRoundTrip` | src/utils/auth.ts:65 | decoding the hex text gives back the original bytes |
| `Auth.HexEncodeInjective` | src/utils/auth.ts:65 | different bytes give different tokens |
| `Auth.MakeRefreshToken` | src/utils/auth.ts:63-66 | the token is 64 characters, all in `0-9a-f`, and decodes to the 32 random bytes |
| `Handlers.Lower` | src/api/handlers.ts:36 | `toLowerCase` keeps the length and lowers each character |
| `Handlers.Split` | src/api/handlers.ts:33 | `split(" ")` gives one more piece than there are spaces, and no piece contains a space |
| `Handlers.Join` | src/api/handlers.ts:37 | `join(" ")` of no words is `""`; for a non-empty list of space-free words, splitting the result on `" "` gives the words back and the result has exactly one space fewer than there are words |
| `Handlers.JoinSplit` | src/api/handlers.ts:33-37 | joining the pieces of a split with `" "` gives the original string |
| `Handlers.MaskWord` | src/api/handlers.ts:34-36 | no listed word survives masking: the lower case of the result is never in the list |
| `Handlers.MaskAll` | src/api/handlers.ts:35-36 | the `map` keeps the number of words, leaves no listed word, keeps every unlisted word in place, and introduces no space |
| `Handlers.Clean` | src/api/handlers.ts:33-37 | the cleaned chirp has as many spaces as the body and none of its words is listed |
| `Handlers.MaskWordIdempotent` | src/api/handlers.ts:34-36 | masking a masked word changes nothing, since `"****"` is not listed |
| `Handlers.CleanWords` | src/api/handlers.ts:33-37 | the words of the cleaned chirp are the input words, each masked on its own |
| `Handlers.ValidateChirp` | src/api/handlers.ts:30-37 | rejected with "Chirp too long" iff longer than 140 characters; otherwise the result's words are the masked input words |
| `Handlers.CleanPreservesWordCount` | src/api/handlers.ts:33-37 | the output has as many words, and as many spaces, as the input |
| `Handlers.CleanWordAt` | src/api/handlers.ts:34-36 | word `i` of the output is `"****"` when the lower case of input word `i` is listed, and is input word `i` otherwise |
| `Handlers.MixedCaseMasked` | src/api/handlers.ts:36 | `"KerFuffle"` is masked |
| `Handlers.UnlistedLengthKept` | src/api/handlers.ts:34-36 | a word whose length is not that of a listed word (9, 8 or 6) is never masked |
| `Handlers.WholeWordOnly` | src/api/handlers.ts:36 | `"kerfuffle!"` and `"xfornax"` are kept |
| `Handlers.CleanWithoutProfanity` | src/api/handlers.ts:33-37 | a body with no listed word comes back unchanged |
| `Handlers.CleanIdempotent` | src/api/handlers.ts:34-37 | cleaning a cleaned body gives the same string |
| `RefreshTokens.Insert` | src/db/queries/refresh_tokens.ts:5-11 | the table gains exactly the new row under its token; every other row is unchanged; rows stay keyed by token |
| `RefreshTokens.Lookup` | src/db/queries/refresh_tokens.ts:13-19 | finds a row iff its token is present, and then the row stored under that exact token |
| `RefreshTokens.Revoke` | src/db/queries/refresh_tokens.ts:24 | `revokedAt` and `updatedAt` become `now`; token, owner, expiry and creation time are kept |
| `RefreshTokens.RevokeWhere` | src/db/queries/refresh_tokens.ts:21-26 | only the matching row is revoked; the keys and all other rows are unchanged; an unknown token leaves the table as it was |
| `RefreshTokens.LookupAfterInsert` | src/db/queries/refresh_tokens.ts:5-19 | a lookup after insert returns the inserted row; lookups of other tokens are as before |
| `RefreshTokens.LookupAfterRevoke` | src/db/queries/refresh_tokens.ts:13-26 | a lookup after revoke returns a row with `revokedAt` set to `now` |
| `RefreshTokens.RevokedStaysRevoked` | src/db/queries/refresh_tokens.ts:5-26 | a revoked row stays revoked through any later insert or revoke |
| `RefreshTokens.RevokeTwice` | src/db/queries/refresh_tokens.ts:24 | a second revoke equals a single revoke at the later time, and differs from the first when the times differ |
| `RefreshTokens.RefreshTokenTable.CreateRefreshToken` | src/db/queries/refresh_tokens.ts:5-11 | the table becomes `Insert` of the old table and the row; the row is returned |
| `RefreshTokens.RefreshTokenTable.GetRefreshTokenByToken` | src/db/queries/refresh_tokens.ts:13-19 | returns `Lookup` of the table: the row whose token equals the argument, or `None` when there is none; the table is untouched |
| `RefreshTokens.RefreshTokenTable.RevokeRefreshToken` | src/db/queries/refresh_tokens.ts:21-26 | the table becomes `RevokeWhere` of the old table; no error on an unknown token |

## Left out

- `hashPassword` and `checkPasswordHash` (src/utils/auth.ts:9-19): wrappers over the bcrypt library, which is not part of this model.
- JWT signing and signature/expiry checking (`jwt.sign`, `jwt.verify`): the jsonwebtoken library is not part of this model. Only the claim set and the `sub` check are modelled, with the decoded object as a parameter.
- `Date.now()`, `new Date()` and `randomBytes(32)` are parameters, not modelled sources. `MakeRefreshToken` requires the 32 bytes that `randomBytes(32)` always returns.
- RefreshTokens.RefreshTokenTable.RevokeRefreshToken: `new Date()` is evaluated twice in the source, so `revokedAt` and `updatedAt` can differ by a clock tick; the model stamps both with one `now`.
- RefreshTokens.RefreshTokenTable.CreateRefreshToken: requires that the token is not already present. The uniqueness constraint and the column defaults (`createdAt`, `updatedAt`) live in src/db/schema.ts, which is not part of this model, so the row is stored exactly as given.
- Handlers.Lower: `toLowerCase` is full Unicode case mapping in JavaScript; the model lowers ASCII `A`-`Z` only, so a non-ASCII character that lowers to an ASCII letter is not matched.
- Handlers.ValidateChirp: the 140 limit is compared with the number of characters (Unicode scalar values), while JavaScript's `length` counts UTF-16 code units; a body of 71 characters outside the Basic Multilingual Plane is 142 units long and rejected by the source, but accepted by the model.
- Auth.MakeJWTPayload: `expiresIn` is an integer here, where the source takes a JavaScript `number`; fractional lifetimes and precision loss above 2^53 are not modelled.
- Handlers.ValidateChirp: `body` is a `string` here, but the source only annotates `req.body` as `{ body: string }` and checks nothing at run time; a request whose `body` field is missing or not a string throws a `TypeError` at line 30 or 33, which the model cannot express.
- JSON numbers in decoded claims are integers here; floating-point `iat`/`exp` values are not modelled.
- The HTTP response writing in `handlerValidateChirp`, and `handlerReadiness`, `handlerMetrics`, `handlerReset` and `errorHandler`: response plumbing and a global counter, with nothing to state.
- Routing, configuration loading, logging middleware, and the user and chirp queries (src/index.ts, src/config.ts, src/api/middleware.ts, src/db/queries/users.ts, src/db/queries/chirps.ts).
- The login, refresh, revoke and delete-chirp handlers are imported by src/index.ts, but their code is not part of this model. Token validity, the refresh flow and ownership checks are therefore not modelled.
