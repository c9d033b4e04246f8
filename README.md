# vmail worker core, modelled in Dafny

vmail is a temporary-mailbox service. Its Cloudflare worker keeps three
tables in D1: users, mailboxes and emails. It offers two groups of HTTP
routes:

- account routes: register and log in;
- mailbox routes, behind a bearer-token gate: list, create and delete the
  caller's mailboxes, and list a mailbox's emails.

This project models four parts of that worker:

- the authentication helpers: password hashing, and the JWT-shaped session
  token;
- the data-access layer;
- the mailbox routes;
- the account routes.

Each part is split into Dafny modules as follows.

| module | file | models |
|---|---|---|
| `JsString` | jsstring.dfy | the JavaScript string operations used: `split` with a one-character separator, `startsWith`, `trim`, hex digits, and the Latin-1 restriction of `btoa` |
| `Base64` | base64.dfy | `btoa`, and `atob` with the forgiving decoder of the WHATWG HTML standard (alphabet and padding of section 4 of RFC 4648) |
| `TokenJson` | tokenjson.dfy | `JSON.stringify` of the token header and claims, including string escaping, and a `JSON.parse` for payloads of that shape |
| `Credentials` | credentials.dfy | `hashPassword` as lower-case hex of a digest, and `verifyPassword` |
| `Token` | token.dfy | `generateToken`, `verifyToken`, `extractToken` |
| `Tables` | tables.dfy | the query shapes the DAO uses: `WHERE` filters, the first row of a result, `ORDER BY ... DESC` |
| `Dao` | dao.dfy | class `Database`, whose fields are the three tables as sequences of rows; one method per mutating DAO function and one function per read |
| `Http` | http.dfy | the worker's bindings, and a reply that is either a body or an error status |
| `MailboxRoutes` | mailbox_routes.dfy | `authMiddleware` and the four mailbox handlers |
| `AuthRoutes` | auth_routes.dfy | `POST /register` and `POST /login` |

Some of what the worker reads from outside comes in as parameters:

- the current time, in milliseconds (`nowMs`);
- the id generator's output (`newId`, standing in for `nanoid()`);
- the SHA-256 digest of a password (`sha256: string -> Digest`, any
  deterministic function yielding 32 bytes).

A browser function that throws is modelled as `None`. For example, `btoa`
throws on a code unit above 255. A `try/catch` that turns a throw into 500
becomes an explicit `Error(500)`.

The main results:

- `atob(btoa(s)) == s` for every Latin-1 string `s`.
- `JSON.parse(JSON.stringify(claims))` gives back the claims.
- A token issued for a user verifies to that user up to its expiry second.
- The same token is rejected after its expiry second, and under any other
  secret.
- A token with other than two dots is rejected.
- A password always verifies against its own stored hash.
- Two passwords match the same stored hash exactly when their digests are
  equal.
- The expiry sweep deletes exactly the expired mailboxes and their emails,
  provided mailbox ids are distinct. It leaves no expired mailbox, and a
  second sweep at the same time deletes nothing.
- The handlers check in the source's order: 401, then 400, then 404 or 409.
  Every refusal leaves the store unchanged.
- Registration and mailbox creation keep usernames and mailbox addresses
  unique.

Three points about the code that its comments or names do not say:

- **The mailbox delete query removes only the mailbox row.** `deleteMailbox`
  deletes from the mailboxes table alone
  (`worker/src/database/dao.ts:206-212`). The comment at
  `worker/src/routes/mailboxes.ts:142` says the mailbox's emails go too.
  That would take a cascade in the schema, which is not part of this model.
  So `Dao.Database.DeleteMailbox` and `MailboxRoutes.DeleteMailbox` leave
  `emails` unchanged. In the model, emails are deleted only by:
  - `Dao.Database.DeleteEmails` (by id);
  - `Dao.Database.DeleteExpiredEmails` (by age);
  - `Dao.Database.DeleteExpiredMailboxes` (the emails of expired mailboxes).
- **`DELETE /:id` answers 404 for a missing mailbox.** It does so before any
  delete is attempted (`worker/src/routes/mailboxes.ts:138-140`). Every
  storage call succeeds in this model, and one request runs at a time. So
  the delete after the guard always removes a row, and the 500 for a zero
  count is not reached here. In the worker it is reached in two cases:
  - the delete throws, and its `catch` returns `{ count: 0 }`
    (`worker/src/database/dao.ts:213-216`);
  - another request or the sweep removes the mailbox between the guard and
    the delete.
- **The sweep counts rows removed by id, not rows found expired.** It
  returns the `rowsAffected` of the delete by id
  (`worker/src/database/dao.ts:267-272`). If ids could repeat, an unexpired
  row that shares an id with an expired one would be deleted and counted
  too. The model states the general case, and proves "exactly the expired
  rows" under `Dao.UniqueMailboxIds`.

## Model

| member | source | states |
|---|---|---|
| JsString.Latin1Concat | worker/src/auth.ts:37-39 | the string given to `btoa` is acceptable exactly when every piece concatenated into it is |
| JsString.Split | worker/src/auth.ts:49 | `split` never yields an empty list |
| JsString.SplitCount | worker/src/auth.ts:49-52 | `split` yields one more piece than there are separators, so `parts.length !== 3` exactly when the token has other than two dots |
| JsString.SplitPiecesLackSeparator | worker/src/routes/mailboxes.ts:80 | no piece of a split contains the separator, so the first configured domain has no comma |
| JsString.SplitNoSeparator | worker/src/auth.ts:49 | a string without the separator splits into itself alone |
| JsString.SplitAfterPiece | worker/src/routes/mailboxes.ts:81 | a separator-free prefix followed by the separator comes off as the first piece and the rest splits on its own |
| JsString.SplitThree | worker/src/auth.ts:41 | three dot-free parts joined by dots split back into exactly those three parts |
| JsString.SkipWhitespace | worker/src/routes/mailboxes.ts:80 | the scan stops at the first non-whitespace code point, having passed only whitespace |
| JsString.BackOverWhitespace | worker/src/routes/mailboxes.ts:80 | the backward scan stops after the last non-whitespace code point, having passed only whitespace |
| JsString.Trim | worker/src/routes/mailboxes.ts:80 | `trim` returns the infix left once only ECMAScript whitespace and line terminators are removed from both ends, and it neither starts nor ends with one |
| JsString.HexDigit | worker/src/auth.ts:13 | `toString(16)` of a value below 16 is one lower-case hex digit |
| JsString.HexValueOfDigit | worker/src/auth.ts:13 | a hex digit reads back as the value it was written for |
| Base64.Digit | worker/src/auth.ts:37-39 | every sextet is written as a base64 digit, never as `=` or `.`, and in ASCII |
| Base64.Value | worker/src/auth.ts:63 | every base64 digit stands for a sextet, and writing that sextet gives the digit back |
| Base64.Quad | worker/src/auth.ts:37-39 | three bytes become four base64 digits |
| Base64.Tail | worker/src/auth.ts:37-39 | a final one or two bytes become two or three digits |
| Base64.DigitsLength | worker/src/auth.ts:37-39 | the unpadded output has four digits per three bytes and one more than the bytes of a partial group |
| Base64.Padding | worker/src/auth.ts:37-39 | padding is zero, one or two `=` |
| Base64.EncodedLength | worker/src/auth.ts:37-39 | digits and padding together are four characters per three bytes or part of three |
| Base64.Encode | worker/src/auth.ts:37-39 | `btoa` output has length 4 * ceil(n/3), a multiple of four, contains no `.`, and is itself Latin-1 |
| Base64.Btoa | worker/src/auth.ts:37-39 | `btoa` succeeds exactly when every code unit is below 256 |
| Base64.Digits | worker/src/auth.ts:37-39 | the unpadded encoding consists of base64 digits only |
| Base64.DecodeDigits | worker/src/auth.ts:63 | decoding base64 digits yields a binary string |
| Base64.QuadDecodes | worker/src/auth.ts:63 | the four digits written for three bytes decode to those bytes |
| Base64.TailOneDecodes | worker/src/auth.ts:63 | the two digits written for a last single byte decode to it |
| Base64.TailTwoDecodes | worker/src/auth.ts:63 | the three digits written for two last bytes decode to them |
| Base64.DecodeGroupThenRest | worker/src/auth.ts:63 | decoding works group by group: a full group of four, then the rest |
| Base64.DigitsLengthNotOneMod4 | worker/src/auth.ts:63 | `btoa` never leaves a lone digit in a last group, which `atob` would refuse |
| Base64.StripPaddingAfterDigits | worker/src/auth.ts:63 | on input of whole groups, `atob` removes exactly the `=` padding |
| Base64.StripPadding | worker/src/auth.ts:63 | `atob` only ever removes a suffix (the trailing `=`) before decoding |
| Base64.Atob | worker/src/auth.ts:63 | `atob` output, when it does not throw, is a binary string |
| Base64.DecodeDigitsOfDigits | worker/src/auth.ts:63 | decoding the unpadded digits of `s` gives `s` |
| Base64.StripPaddingOfEncode | worker/src/auth.ts:63 | `atob` strips exactly the padding `btoa` added |
| Base64.AtobOfEncode | worker/src/auth.ts:63 | round trip: `atob(btoa(s)) == s` for every string `btoa` accepts |
| Base64.EncodeInjective | worker/src/auth.ts:57-60 | two strings have the same `btoa` exactly when they are equal |
| TokenJson.EscapeChar | worker/src/auth.ts:38 | an escaped character is never a bare quote, so it cannot end the string literal |
| TokenJson.ParseEscapedChar | worker/src/auth.ts:63 | `JSON.parse` reads one escaped character back as that character |
| TokenJson.ParseQuoted | worker/src/auth.ts:63 | `JSON.parse` reads back the string `JSON.stringify` wrote (`TokenJson.Escape`, which `TokenJson.Quote` puts between quotes), and stops at its closing quote |
| TokenJson.EscapeLatin1 | worker/src/auth.ts:38 | the escaped user id is Latin-1 exactly when the user id is |
| TokenJson.ParseString | worker/src/auth.ts:63 | a parsed string literal consumes input |
| TokenJson.Decimal | worker/src/auth.ts:33-34 | `JSON.stringify` of a time in seconds is a non-empty run of decimal digits |
| TokenJson.DecimalValueOfDecimal | worker/src/auth.ts:63 | the digits written for `n` denote `n` and have no leading zero |
| TokenJson.DigitRun | worker/src/auth.ts:63 | the number scanner stops exactly at the first non-digit |
| TokenJson.ParseNumber | worker/src/auth.ts:63 | a parsed number consumes input |
| TokenJson.ParseDecimal | worker/src/auth.ts:63 | `JSON.parse` reads back the number `JSON.stringify` wrote, and stops at the next non-digit |
| TokenJson.DecodeExpTail | worker/src/auth.ts:63 | the closing part of a payload reads back the expiry, present or absent |
| TokenJson.DecodeIatOfAfterUserId | worker/src/auth.ts:63 | the rest of a payload after the user id reads back issue time and expiry |
| TokenJson.DecodeEncodeClaims | worker/src/auth.ts:63 | `JSON.parse(JSON.stringify(payload))` gives the payload back, with `TokenJson.EncodeClaims` writing the payload and `TokenJson.DecodeClaims`, `TokenJson.DecodeIat` and `TokenJson.DecodeExp` reading it |
| TokenJson.DecimalLatin1 | worker/src/auth.ts:38 | a written time is Latin-1 |
| TokenJson.AfterUserIdLatin1 | worker/src/auth.ts:38 | everything in the payload after the user id is Latin-1 |
| TokenJson.EncodeClaimsLatin1 | worker/src/auth.ts:38 | `btoa` of the payload throws exactly when the user id has a code unit above 255 |
| Credentials.Hex | worker/src/auth.ts:12-13 | every byte becomes two lower-case hex digits |
| Credentials.UnhexOfHex | worker/src/auth.ts:13 | the hex text of a digest reads back as the digest |
| Credentials.HexInjective | worker/src/auth.ts:13 | two digests have the same hex text exactly when they are equal |
| Credentials.HashPassword | worker/src/auth.ts:8-15 | a password hash is 64 lower-case hex digits |
| Credentials.VerifyPassword | worker/src/auth.ts:20-23 | a password always matches its own hash, and only a 64-character hash can match |
| Credentials.VerifyAgainstStoredHash | worker/src/auth.ts:20-23 | the hash stored for `q` accepts `p` exactly when `p` and `q` have the same digest |
| Token.IssuedClaims | worker/src/auth.ts:31-35 | `iat` is the current second (floor of ms/1000) and `exp` is `iat` plus thirty days |
| Token.EncodedHeader | worker/src/auth.ts:37 | the encoded header has no `.` and is Latin-1 |
| Token.GenerateToken | worker/src/auth.ts:29-42 | a token is issued exactly when the user id and the secret are Latin-1 (otherwise `btoa` throws) |
| Token.SignatureLatin1 | worker/src/auth.ts:39 | the signature (`Token.Signature`, `btoa` of header, payload and secret joined by dots) can be computed exactly when the secret is Latin-1 |
| Token.GeneratedParts | worker/src/auth.ts:37-41 | an issued token is header, payload and signature (`Token.Parts`) joined by dots, none containing a dot, and splits back into them |
| Token.GeneratedTokenHasThreeParts | worker/src/auth.ts:41 | an issued token has exactly two dots and three parts |
| Token.VerifyToken | worker/src/auth.ts:47-75 | a token is accepted exactly when it has three parts, its third part is the signature recomputed with the secret, its payload decodes and its claims are not expired; the result is then the payload's `userId` |
| Token.WrongShapeRejected | worker/src/auth.ts:49-52 | a token with other than two dots is rejected |
| Token.VerifyGeneratedToken | worker/src/auth.ts:29-75 | round trip: a token issued for a user verifies, with the same secret at any time up to its expiry second, to that user |
| Token.ExpiredTokenRejected | worker/src/auth.ts:66-68 | once its expiry second has passed, an issued token is rejected despite a correct signature |
| Token.SignatureDeterminesSecret | worker/src/auth.ts:57-60 | different secrets give different signatures over the same header and payload |
| Token.WrongSecretRejected | worker/src/auth.ts:57-60 | an issued token is rejected under any other secret |
| Token.ExpiryIsStrict | worker/src/auth.ts:66-68 | expiry (`Token.Expired`) is strict (equal to the current second passes) and a missing or zero `exp` never expires |
| Token.ExtractToken | worker/src/auth.ts:80-86 | a token is extracted exactly when the header is present and starts with `Bearer ` (`JsString.StartsWith`), and it is the rest of the header |
| Token.ExtractBearer | worker/src/auth.ts:80-86 | `extractToken` inverts prefixing `Bearer ` |
| Tables.Filter | worker/src/database/dao.ts:189-196 | a `WHERE` keeps exactly the rows meeting the condition, and nothing else |
| Tables.FilterPartition | worker/src/database/dao.ts:206-212 | deleted and kept rows together make up the table, so rows affected is the size difference |
| Tables.FilterCongruent | worker/src/database/dao.ts:267-270 | two conditions that agree on every row select the same rows |
| Tables.FilterAllOrNothing | worker/src/database/dao.ts:254-256 | a condition no row meets selects nothing, one every row meets selects all |
| Tables.FindFirst | worker/src/database/dao.ts:125-130 | `result[0] \|\| null` is null exactly when no row matches, else the first matching row |
| Tables.ConsSorted | worker/src/database/dao.ts:195 | a row with a key at least every other key may head a descending order |
| Tables.HeadBoundsInsertion | worker/src/database/dao.ts:195 | the head of a descending order bounds its tail with one row added |
| Tables.InsertDesc | worker/src/database/dao.ts:195 | inserting into a descending order keeps it descending and adds exactly that row |
| Tables.SortDesc | worker/src/database/dao.ts:189-196 | `ORDER BY ... DESC` returns the same rows, each key at least the next |
| Dao.SweepRemovesExactlyExpired | worker/src/database/dao.ts:239-277 | with distinct mailbox ids, deleting by the ids of the expired rows deletes exactly the expired rows, and counts them |
| Dao.SweepLeavesNoExpired | worker/src/database/dao.ts:258-270 | after deleting by those ids no expired mailbox remains |
| Dao.SweepIdempotent | worker/src/database/dao.ts:242-256 | when no mailbox is expired the sweep finds nothing, so a second sweep at the same time deletes nothing |
| Dao.UserByName | worker/src/database/dao.ts:123-135 | the lookup is null exactly when no user has the name, else the first user with it |
| Dao.UserByNameAfterInsert | worker/src/database/dao.ts:110-135 | a user stored under an unused name is the one a lookup by that name finds |
| Dao.Database.InsertEmail | worker/src/database/dao.ts:7-13 | the email is appended and nothing else changes |
| Dao.Database.GetEmails | worker/src/database/dao.ts:15-21 | every stored email, in some order |
| Dao.Database.FindEmailById | worker/src/database/dao.ts:24-38 | an email comes back exactly when one row has that id, and it is that row |
| Dao.Database.GetEmailsByMessageTo | worker/src/database/dao.ts:45-59 | exactly the emails to that address, newest first |
| Dao.Database.GetEmailsCount | worker/src/database/dao.ts:61-68 | the number of stored emails |
| Dao.Database.DeleteEmails | worker/src/database/dao.ts:71-82 | an empty id list is a no-op returning 0; otherwise exactly the listed emails go and the count is how many |
| Dao.Database.DeleteExpiredEmails | worker/src/database/dao.ts:90-102 | exactly the emails created strictly before the time go, counted |
| Dao.Database.CreateUser | worker/src/database/dao.ts:110-118 | the user is appended and returned; other tables unchanged |
| Dao.Database.FindUserByUsername | worker/src/database/dao.ts:123-135 | the first user with that name, or none (see `Dao.UserByName`) |
| Dao.Database.FindUserById | worker/src/database/dao.ts:140-152 | null exactly when no user has the id, else the first user with it |
| Dao.Database.CreateMailbox | worker/src/database/dao.ts:159-167 | the mailbox is appended and returned; other tables unchanged |
| Dao.Database.FindMailboxByAddress | worker/src/database/dao.ts:172-184 | null exactly when no mailbox, of any owner, has the address, else the first one |
| Dao.Database.GetMailboxesByUserId | worker/src/database/dao.ts:189-201 | exactly the user's mailboxes, newest first |
| Dao.Database.DeleteMailbox | worker/src/database/dao.ts:206-217 | the rows with that id go and are counted, the count is 0 exactly when none existed, and no email is deleted |
| Dao.Database.GetEmailsByMailboxId | worker/src/database/dao.ts:222-234 | exactly the mailbox's emails, newest first |
| Dao.Database.DeleteExpiredMailboxes | worker/src/database/dao.ts:239-277 | no expired mailbox: 0 and nothing changes; otherwise the emails and mailboxes with the expired ids (`Dao.Ids`, the ids in order) go, no expired mailbox remains, users are untouched, and with distinct ids exactly the expired mailboxes go and are counted |
| MailboxRoutes.Authenticate | worker/src/routes/mailboxes.ts:19-33 | a request passes exactly when it carries a non-empty bearer token that verifies, and then as the token's user; every refusal is 401 |
| MailboxRoutes.AuthenticateIssuedToken | worker/src/routes/mailboxes.ts:19-33 | `Bearer ` and an issued token lets its user through until it expires |
| MailboxRoutes.PrimaryDomain | worker/src/routes/mailboxes.ts:80 | the mail domain has no comma and no surrounding whitespace |
| MailboxRoutes.PrimaryDomainOfList | worker/src/routes/mailboxes.ts:80 | the mail domain is the trimmed first comma-separated entry of `EMAIL_DOMAIN`, whatever follows it |
| MailboxRoutes.AddressDeterminesLocalPart | worker/src/routes/mailboxes.ts:81 | the local part is everything before the first `@`, so different valid local parts give different addresses |
| MailboxRoutes.ExpiresAt | worker/src/routes/mailboxes.ts:90-93 | an expiry is set exactly when `expiryHours` is present and positive, and then at least an hour ahead |
| MailboxRoutes.SweepTakesMailboxAfterItsLifetime | worker/src/routes/mailboxes.ts:90-93 | the sweep at `t` takes a new mailbox exactly when it got a positive lifetime that ended before `t`; a permanent one never |
| MailboxRoutes.FindMailbox | worker/src/routes/mailboxes.ts:136 | `find` returns undefined exactly when no row has the id, else the first such row |
| MailboxRoutes.FindOwnedMailbox | worker/src/routes/mailboxes.ts:135-140 | the ownership guard finds a mailbox exactly when the caller owns one with that id (`MailboxRoutes.Owns`) |
| MailboxRoutes.ListMailboxes | worker/src/routes/mailboxes.ts:41-60 | 401 without a valid token, otherwise the caller's mailboxes newest first, each shown by `MailboxRoutes.Views` as its id, address, expiry and creation time |
| MailboxRoutes.CreateMailbox | worker/src/routes/mailboxes.ts:65-123 | 401, then 400 for a missing or malformed local part (`MailboxRoutes.ValidLocalPart`, the pattern `^[a-zA-Z0-9._-]+$`), then 409 for an address in use by anyone; each leaves the store unchanged; otherwise exactly one mailbox owned by the caller is appended, at the address `MailboxRoutes.MailboxAddress` builds; addresses stay unique |
| MailboxRoutes.DeleteMailbox | worker/src/routes/mailboxes.ts:128-154 | 401; the same 404 for a missing or foreign mailbox, store unchanged; otherwise the mailbox's rows go and emails and users are untouched |
| MailboxRoutes.ListEmails | worker/src/routes/mailboxes.ts:159-181 | 401; the same 404 for a missing or foreign mailbox; otherwise the mailbox's emails newest first |
| AuthRoutes.SessionReply | worker/src/routes/auth.ts:53-62 | a session is returned exactly when a token can be issued, else 500; its token is the one `generateToken` issues for the user now, and it verifies to the user |
| AuthRoutes.SessionTokenLifetime | worker/src/routes/auth.ts:53 | whenever a session is issued (user id and secret Latin-1), its token verifies to its user up to its thirtieth day, is rejected after it, and is rejected under any other secret |
| AuthRoutes.UniqueUsernamesAppend | worker/src/routes/auth.ts:32-46 | storing a user under a name not in use keeps usernames unique |
| AuthRoutes.Register | worker/src/routes/auth.ts:13-67 | 400 for a blank field (`AuthRoutes.Blank`), then 400 for bad lengths, then 409 for a taken name, each leaving the store unchanged; otherwise one user (`AuthRoutes.NewUser`) is appended with the password's hash, a login lookup finds it, the password verifies against it, and usernames stay unique |
| AuthRoutes.Login | worker/src/routes/auth.ts:72-109 | 400 for a blank field; the same 401 exactly when the name is unknown or the password wrong; a known name with the right password always gets the session for the found user (or 500 when no token can be issued), whose token verifies to that user |

## Left out

- SHA-256 and `TextEncoder` (`worker/src/auth.ts:9-11`): the digest is a parameter. No property of SHA-256 itself is assumed, so collision resistance is not modelled.
- `Date.now()` and `new Date()`: the current time is a parameter. Each handler reads it once. The source reads it several times per request.
- `nanoid()`: the new row's id is a parameter, so its uniqueness is not modelled.
- Storage failures: every DAO function's `catch` branch (null, `[]`, `{ count: 0 }`, or the handlers' 500 replies) is not modelled. Only successful storage calls are. Database constraints (unique or foreign keys, cascades) belong to the schema, which is not part of this model, so no constraint is assumed.
- `ORDER BY ... DESC` ties: rows with equal `createdAt` come back in one fixed order, where the database may choose any.
- Dao.Database.GetEmails: states the rows as a multiset, because the query asks for no order.
- MailboxRoutes.DeleteMailbox: the 500 branch for a zero delete count is written. It is unreachable only in this sequential model, where every storage call succeeds. In the worker, a delete that throws (`worker/src/database/dao.ts:213-216`) reaches it, and so does a concurrent delete or sweep between the ownership guard and the delete. Neither is modelled.
- Dao.Database.DeleteMailbox, Dao.Database.DeleteEmails, Dao.Database.DeleteExpiredEmails, Dao.Database.DeleteExpiredMailboxes: the driver's `rowsAffected` is taken to be the number of rows the delete removed. That value comes from the database driver, which is not part of this model.
- TokenJson.DecodeClaims reads only payloads in the shape `JSON.stringify` writes for this token (the keys `userId`, `iat`, optional `exp`, in that order, no whitespace, non-negative integers). Other JSON payloads, including non-numeric `exp`, fractional or negative numbers, extra or reordered keys and a missing `userId`, are not modelled; any payload outside the shape is rejected.
- TokenJson.ParseString rejects every `\u` escape in the range D800-DFFF, including the two halves of a well-formed surrogate pair such as `\uD83D\uDE00`, which `JSON.parse` accepts. Dafny characters are Unicode scalar values, so a surrogate code unit cannot be produced. `JSON.stringify` never writes such escapes for a well-formed user id, so tokens the worker issues are unaffected.
- Base64.Atob: ASCII whitespace inside the input, which the forgiving decoder skips, is not stripped.
- String lengths: `.length` counts UTF-16 code units, while the model counts characters. The two agree except for characters outside the Basic Multilingual Plane, as in the 3..20 username rule and the 6-character password rule.
- MailboxRoutes.ExpiresAt: integers are unbounded. In the source `expiryHours` is a double, and `new Date(Date.now() + expiryHours * 3600000)` is an Invalid Date once the time passes 8.64e15 ms (`expiryHours` above about 2.4e9). The reply then shows `null`. The model gives `Some(nowMs + expiryHours * MsPerHour)` for every positive integer, and does not model the rounding of large products either.
- MailboxRoutes.CreateMailbox: `expiryHours` is modelled as an optional integer. Fractional, string or other JSON values, which JavaScript would coerce, are not. `localPart` is modelled as an optional string; a non-string JSON value is not.
- AuthRoutes.Register: `username` and `password` are modelled as optional strings. The source accepts any JSON value. A number passes `!field` when non-zero, and its `.length` is `undefined`, so the length rules at `worker/src/routes/auth.ts:21-27` do not apply to it. For example, a numeric password of one digit is stored. Non-string fields are not modelled.
- AuthRoutes.Login: likewise, `username` and `password` are optional strings. A non-string JSON value, which the source passes on to the lookup and to hashing, is not modelled.
- Dao.Database.FindUserByUsername: takes `result[0]` as the first matching row in storage order. The query has no `ORDER BY`, so the database promises no particular row when several match. With no unique constraint assumed, several can match.
- Dao.Database.FindUserById: the same: the first matching row in storage order, where the database promises no order.
- Dao.Database.FindMailboxByAddress: the same: the first matching row in storage order, where the database promises no order.
- MailboxRoutes.CreateMailbox and `AuthRoutes.Register`: the check-then-insert is one atomic step, so two concurrent requests racing on one address or username are not modelled.
- AuthRoutes.Register: `createUser` returning null (500 at `worker/src/routes/auth.ts:48-50`) needs a storage failure, so it is not modelled.
- The Hono routing, the JSON response bodies' messages, `console.error` logging, the email-ingestion handler and the scheduler that calls the sweeps are outside the core. The frontend is not part of this model.
