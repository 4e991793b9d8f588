# Verification-code lifecycle of Lap Video Chat, in Dafny

A model of the part of the Lap Video Chat bot that issues and redeems phone
verification codes. The Telegram bot issues codes. The mobile app redeems
them over HTTP. Both work on two PostgreSQL tables:

- `verification_codes`. Rows `(id, phone, code, created_at, used)` with a SERIAL
  id. It is modelled as the class `CodeStore.CodeTable`: a `seq<CodeRow>` in
  insertion order plus the SERIAL counter `nextId`. Its methods are the calls
  in `src/bot/database.js` (`saveCode`, the `LIMIT 1` select of `verifyCode`,
  the update by id, and the purge `DELETE` written in `initDB`) and the
  LIMIT-less select of backend/src/api/index.js.
- `users`. It is reduced to a map from phone to `Status` (`Pending` or `Active`)
  in the class `UserStore.UserTable`. Its methods are the two writes the
  handlers make: the upsert of `/api/verify` and the update-only activation
  of `/admin/assist`.

The clock `NOW()` becomes an integer argument `now`, in seconds. The
10-minute interval is the constant `TTL = 600`. `Math.random()` becomes an
integer `r` in `[0, 900000)`. A failing database call becomes a boolean
`fault` argument.

The redeem query is the predicate `Redeemable`: phone and code equal, `used`
false, and `createdAt > now - TTL` (strict). `Matching` lists the indices of
matching rows in insertion order. `Redeem` is the specification of a
redemption. It succeeds iff some row matches. It then marks exactly one
matching row used and changes nothing else. The source's `LIMIT 1` and
`rows[0]` have no `ORDER BY`, so which matching row gets marked is not fixed.
`Redeem` marks the first one in insertion order, and the lemma
`RedeemMarksFirstMatch` states that choice. The update runs `WHERE id = $1`
and is modelled literally as `SetUsedWhereId`. Since SERIAL ids are unique,
`UpdateByIdMarksOneRow` proves it marks the found row and nothing else.

Modules: `Optional`, `Decimal` (integer-to-text as `toString()` renders it),
`CodeStore` (`src/bot/database.js`, the code table), `UserStore` (the users
table), `CodeProperties` (lifecycle lemmas), `Handlers`
(`src/bot/handlers.js`), `HttpApi` (reply and request-field helpers shared by
the two APIs), `BotApi` (`index.js`) and `BackendApi`
(`backend/src/api/index.js`).

Points where the code's behaviour is easy to misread:
- The purge deletes rows with `createdAt < now - TTL`, strictly. A row exactly
  10 minutes old is kept, and it can no longer be redeemed.
- The purge is written to run once, inside `initDB`, and not on a timer. As
  written it never runs at all (see "## Left out").
- `verifyCode` turns a store error into `false`, so `/api/verify` answers 400
  (invalid code), not a distinct store failure.
- The redeem is a select followed by a separate update, not one conditional
  update.
- Codes run from 100000 to 999999 and are never zero-padded.
- Normalisation strips exactly one leading `+` and nothing else.
- No code path creates a `pending` user.

## Model

| member | source | states |
|---|---|---|
| `Decimal.NatToDecimal` | src/bot/database.js:47 | the text of a number is non-empty, all digits, and begins with '0' only for zero |
| `Decimal.DecimalRoundTrip` | src/bot/database.js:47 | reading back the decimal text of n gives n |
| `Decimal.DecimalLength` | src/bot/database.js:47 | a number in [10^(k-1), 10^k) has exactly k digits |
| `CodeStore.GenerateCode` | src/bot/database.js:45-48 | the code is 6 decimal digits with no leading zero, and denotes 100000 + r, so it lies in [100000, 999999] |
| `CodeStore.MatchingUpTo` | src/bot/database.js:67-74 | the selected indices are exactly the redeemable rows below n, strictly increasing (insertion order) |
| `CodeStore.MatchingUpToPrefix` | src/bot/database.js:72 | scanning further only extends the list of matches, so the first match found stays first |
| `CodeStore.UpdateByIdMarksOneRow` | src/bot/database.js:78-81 | with unique SERIAL ids, `UPDATE ... WHERE id` marks exactly the selected row |
| `CodeStore.Redeem` | src/bot/database.js:65-84 | success iff some row has the phone and code, is unused and has `createdAt > now - 600`; on success exactly one such row flips to used and all else is unchanged; on failure nothing changes |
| `CodeStore.Purged` | src/bot/database.js:35-37 | the purge never adds rows (which rows it keeps is stated by `PurgedMembers` and `PurgeDistributes`) |
| `CodeStore.PurgedMembers` | src/bot/database.js:35-37 | the purge keeps a row iff it is not older than `now - 600`, whatever its `used` flag |
| `CodeStore.PurgedKeepsIdsUnique` | src/bot/database.js:22 | the purge never duplicates a row, so ids stay unique |
| `CodeStore.PendingCount` | src/bot/handlers.js:65 | the count is at most the number of rows (its meaning is proved by `CodeStore.PendingCountIsLiveRows`) |
| `CodeStore.PendingCountIsLiveRows` | src/bot/handlers.js:65 | the pending count is the number of rows with `used = false` and `createdAt > now - 600` |
| `CodeStore.CodeTable.constructor` | src/bot/database.js:21-28 | the table starts empty with the SERIAL counter at 1 |
| `CodeStore.CodeTable.SaveCode` | src/bot/database.js:51-62 | on success exactly one row `(nextId, phone, code, now, unused)` is appended and earlier rows, even with the same phone and code, are untouched; on store failure it returns false and adds no row |
| `CodeStore.CodeTable.FindFirstRedeemable` | src/bot/database.js:67-74 | returns no row iff nothing matches, otherwise the first matching row in insertion order |
| `CodeStore.CodeTable.SelectRedeemable` | backend/src/api/index.js:25-31 | returns every matching row, in insertion order |
| `CodeStore.CodeTable.MarkUsed` | src/bot/database.js:78-81 | sets `used` on the rows carrying the id and on no other row |
| `CodeStore.CodeTable.VerifyCode` | src/bot/database.js:65-89 | without a store failure, result and new table are those of `Redeem`; with one, false and the table is unchanged |
| `CodeStore.CodeTable.PurgeExpired` | src/bot/database.js:34-37 | the table becomes `Purged(old rows, now)` and stays valid |
| `CodeProperties.RedeemMarksFirstMatch` | backend/src/api/index.js:41-44 | the row a successful redemption marks is the first matching row, and none before it matched |
| `CodeProperties.MarkingRemovesOneMatch` | src/bot/database.js:78-81 | marking a matching row removes exactly that one match |
| `CodeProperties.SingleUse` | src/bot/database.js:67-82 | after a success, an identical second request succeeds iff two distinct matching rows existed beforehand |
| `CodeProperties.TwoMatches` | src/bot/database.js:67-74 | at least two matches iff two distinct matching rows exist |
| `CodeProperties.ExpiredCodeRejected` | src/bot/database.js:70 | if every row for the phone and code has `createdAt <= now - 600`, redemption fails and changes nothing |
| `CodeProperties.MatchingUpToAppend` | src/bot/database.js:53-56 | an insert leaves the matches among earlier rows unchanged |
| `CodeProperties.MatchingAppend` | src/bot/handlers.js:26-28 | after issuing, the matches are the old matches followed by the new row when it matches |
| `CodeProperties.IssuedCodeRedeemsOnce` | src/bot/handlers.js:27-28 | a freshly saved code redeems within 10 minutes, and a second identical request then fails (absent other matching rows) |
| `CodeProperties.LaterIssueLeavesEarlierCode` | src/bot/handlers.js:26-28 | issuing another code for a phone leaves the outcome and effect of redeeming a different (phone, code) unchanged |
| `CodeProperties.PendingAppend` | src/bot/handlers.js:65 | appending a row adds one to the pending count iff the row is live |
| `CodeProperties.SaveAddsOnePending` | src/bot/database.js:53-56 | saving a code adds one pending code |
| `CodeProperties.MarkingRemovesOnePending` | src/bot/database.js:78-81 | marking a live row used lowers the pending count by exactly one |
| `CodeProperties.RedeemLowersPending` | src/bot/database.js:76-84 | a successful redemption lowers the pending count by one; a failed one leaves it |
| `CodeProperties.PurgeDistributes` | src/bot/database.js:35-37 | the purge keeps the remaining rows in order: purging `a + b` is purging `a` then `b` |
| `CodeProperties.PurgeKeepsFreshTable` | src/bot/database.js:35-37 | a table with no expired row is left exactly as it is |
| `CodeProperties.BoundaryRowKeptButDead` | src/bot/database.js:36 | a row exactly 600 s old survives the purge but cannot be redeemed |
| `CodeProperties.PurgeKeepsPending` | src/bot/database.js:35-37 | a purge at any time up to `now` leaves the pending count at `now` unchanged |
| `CodeProperties.PurgeKeepsRedeemOutcome` | src/bot/database.js:35-37 | a purge at any time up to `now` does not change whether a redemption at `now` succeeds |
| `UserStore.ActiveCount` | src/bot/handlers.js:64 | the active-user count is at most the number of users |
| `UserStore.ActivationCountsOnce` | index.js:55-57 | activating a phone counts it once, whether it was inserted, switched from pending or already active |
| `UserStore.UserTable.constructor` | src/bot/database.js:13-19 | the users table starts empty |
| `UserStore.UserTable.Upsert` | index.js:55-58 | the phone ends `Active`, inserted if absent and otherwise only its status changes; on store failure nothing changes |
| `UserStore.UserTable.ActivateExisting` | index.js:84-87 | an existing phone becomes `Active`; an absent phone is never inserted |
| `Handlers.NormalisePhone` | src/bot/handlers.js:24 | the phone starts with '+' iff it is '+' followed by the result; otherwise the result is the phone unchanged |
| `Handlers.NormaliseStripsOnlyOnePlus` | src/bot/handlers.js:24 | only one '+' is stripped: "++1" becomes "+1" |
| `Handlers.HandleContact` | src/bot/handlers.js:19-28 | the shown code is the generated code, and exactly one row holding it under the normalised phone is appended unless the store failed; no existing row is consulted |
| `Handlers.AdminPanel` | src/bot/handlers.js:58-65 | a caller outside `adminIds` gets a refusal before any query; for an admin a failing COUNT query leaves no reply, since nothing catches it; otherwise the admin gets the number of active users and the number of unused rows younger than 600 s |
| `HttpApi.RedeemRequest` | index.js:51 | a redemption bound to request fields succeeds iff no store failure, both fields present and some row matches; otherwise nothing changes |
| `BotApi.Verify` | index.js:43-68 | a blank phone or code gives 400 and changes neither table; otherwise the code table becomes the redemption's result, and on success the user is upserted to `Active` (200), on store failure of the upsert 500 with the code consumed, and on failure 400 with users unchanged |
| `BotApi.AdminAssist` | index.js:72-97 | a wrong key gives 403 before any query; otherwise the code is consumed as by `/api/verify`, and on success only an existing user becomes `Active` |
| `BotApi.PlusPhoneMissesBotCode` | index.js:45-51 | a code the bot saved for a '+'-prefixed phone changes nothing for a request that keeps the '+' |
| `BackendApi.VerifyCode` | backend/src/api/index.js:21-52 | on no match 400 and nothing changes; on a match the first returned row is marked used (200); on store failure 500 and nothing changes; the users table is not an argument, so nobody is activated; this assumes a working `pool` (see "## Left out") |

## Left out

- Express and Telegraf wiring are not modelled. This covers routing,
  middleware, webhook registration, polling, the `/health` endpoints and the
  `node-cron`/`axios` self-ping (index.js:7-39, 99-144). backend/src/bot/index.js
  is not part of this model, because it is only such wiring.
- `handleStart`, `handleHelp`, reply texts and keyboards are left out. They
  only deliver messages.
- The loop in `handleContact` that notifies each admin over Telegram is left
  out. It only delivers messages, and it swallows every send failure, so it
  never affects issuance.
- Concurrency is not modelled: each call is atomic. In the real system, two
  requests can both pass the select before either update, so both can
  succeed on the same row. The model cannot show that race.
- The partial constraint `UNIQUE(phone, code) WHERE NOT used` is left out. It
  is not valid PostgreSQL table-constraint syntax, so no uniqueness is
  enforced and duplicate unused (phone, code) rows are allowed. No handler
  relies on uniqueness.
- `CodeStore.CodeTable.PurgeExpired` models the `DELETE` of `initDB` as the code
  intends it. As written, the `CREATE` batch at src/bot/database.js:12-32 is
  sent as one query; PostgreSQL parses the whole text first, and the invalid
  constraint makes it fail. The `await` throws, control goes to the catch, and
  `initDB` never reaches the purge. The model does not capture that failure.
- `CodeStore.CodeTable.constructor` and `UserStore.UserTable.constructor` model
  the declared schema, which the same failed `CREATE` batch never creates.
  Unless the tables were created some other way, every `saveCode`,
  `verifyCode` and upsert takes its `fault` branch: `saveCode` returns false
  and `/api/verify` answers 400.
- The users columns `id`, `username` and `created_at` are left out. No
  modelled handler reads or writes them.
- Database connection and error details are left out. `SaveCode`,
  `VerifyCode`, `Upsert`, `ActivateExisting`, `HandleContact`,
  `HttpApi.RedeemRequest` and `BackendApi.VerifyCode` take one `fault` flag,
  and a failing call leaves its table unchanged. `AdminPanel` takes one too;
  its failure changes no table and sends no reply. `BotApi.Verify` and
  `BotApi.AdminAssist` take two, `codeFault` and `userFault`. A `codeFault`
  gives 400 and changes nothing (in `/admin/assist`, only once the key check
  has passed). A `userFault` after a successful redemption
  gives 500 with the code already consumed and the user not activated.
- `Math.random()` and `NOW()` become the integer arguments `r` and `now`. Their
  floating-point and wall-clock behaviour is not modelled.
- Telegram's numeric user id is taken as already turned into a string for the
  admin check.
- Request fields are modelled as optional strings. Other JSON value types
  are not modelled.
- `initDB` is written to run the purge only after the tables are created,
  and then only once. `PurgeExpired` models that purge as a plain operation,
  without the table creation.
- `BackendApi.VerifyCode`: the model assumes a working `pool`. As written,
  backend/src/api/index.js:4 takes `pool` from backend/src/bot/index.js, which
  exports nothing, so `pool` is undefined and `pool.query` throws inside the
  `try`. Every call therefore takes the `fault` branch: 500, and nothing
  changes. The 400 and 200 paths model the handler's logic as intended.
- `CodeStore.PendingCount`: its own contract states only the bound. Its
  meaning is stated by `CodeStore.PendingCountIsLiveRows`.
- `UserStore.ActiveCount`: its own contract states only the bound. The admin
  panel's contract states the count as the set of active phones.
