# TierAlba API handlers, modelled in Dafny

This project models the request handlers of the TierAlba trading-dashboard
backend (`server.js`, an Express application over PostgreSQL). Each SQL
statement is read as an operation on an in-memory table. The four tables
(`users`, `trades`, `equity_snapshots`, `broker_connections`) are sequence
fields of one `Server.Store` class. Its methods are the handlers, and each
method is proved against the pure functions that state what the handler
computes.

Modules follow the handler groups of the file:

- `Common`: `Option`/`Result`, JavaScript truthiness of a numeric field, the `parseInt` query fallback.
- `Text`: ASCII `toLowerCase`/`toUpperCase`, and `split` on one character together with its inverse `Join`.
- `Tables`: one datatype per row, and the `WHERE user_id = $1` selections.
- `Ordering`: a sort that realises `ORDER BY`. It is proved ordered and a permutation.
- `Auth`: the bearer token taken from the `Authorization` header, registration, login, `/api/auth/me`.
- `Trades`: manual trade entry with the pip-model profit, delete by (trade id, user id), the paged listing.
- `Equity`: validation of a manual snapshot, the most recent equity, the equity history.
- `Stats`: the dashboard aggregates.
- `Registry`: broker connect and the connection listing.
- `Server`: the `Store` class.

Numbers are Dafny `real`s, so rounding never occurs. Timestamps are integer
seconds. The database clock `NOW()` is the explicit parameter `now`.

A numeric JSON field as JavaScript sees it after coercion is an
`Option<real>`. `None` stands for missing, `null` or NaN. The field is
truthy when it is present and non-zero. Numeric fields are assumed to
arrive as JSON numbers: a string such as `"0"` is truthy in JavaScript and
passes the checks, which this model does not capture.

A string field is a `string`. The empty string stands for every falsy
value (missing, `null`, `""`).

The library calls are parameters:

- `bcrypt.hash` is the `passwordHash` argument of `Register`.
- `bcrypt.compare` is a `compare` function.
- `jwt.verify` is a `verify` function that returns the token's user id, or `None`.

## Model

| member | source | states |
|---|---|---|
| `Text.Split` | server.js:97 | `split(' ')` yields at least one field, and no field contains the separator |
| `Text.JoinSplit` | server.js:97 | joining the fields of a split with the separator gives back the original string |
| `Auth.BearerToken` | server.js:96-103 | a token found is non-empty and space-free, and a header without a space yields none |
| `Auth.BearerTokenEmptyField` | server.js:97-103 | `Bearer ` with nothing after the space, or with a second space right after the first, yields no token, hence 401 |
| `Auth.BearerTokenOf` | server.js:97 | `<scheme> <token>`, optionally followed by more space-separated text, yields exactly `token`, whatever the scheme word is |
| `Auth.Authenticate` | server.js:94-117 | 401 exactly when there is no token, 403 exactly when verification rejects the token, otherwise success with the user id carried by the token |
| `Auth.CheckRegistration` | server.js:138-164 | each 400 is pinned to its cause, checked in order: `MissingCredentials` exactly for a missing email or password, `PasswordTooShort` exactly for a present password shorter than 8, `EmailTaken` exactly for a long enough password whose lower-cased email is stored. Otherwise it accepts, and the stored email is the lower-cased one |
| `Auth.RegisterKeepsUsersWellFormed` | server.js:154-173 | a successful registration keeps stored emails lower-case and unique and user ids increasing |
| `Auth.FindByEmail` | server.js:214-217 | the row found has the email that was asked for; nothing is found exactly when no row has that email |
| `Auth.FindAppended` | server.js:170-173 | a user stored under an email no one else has is the one a lookup by that email finds |
| `Auth.Login` | server.js:203-233 | 400 without an email or password. An unknown email and a wrong password get the same 401. Success returns a stored user whose email is the lower-cased input and whose hash matches the password |
| `Auth.LoginSucceeds` | server.js:214-233 | in a well-formed users table, any stored user who gives their email in any letter case and a password that the hash check accepts is logged in as that user |
| `Auth.FindUnique` | server.js:214-217 | with unique emails, the lookup by a stored user's email finds that user |
| `Auth.RegisterThenLogin` | server.js:136-233 | after a registration, a login with the same password and the email in any letter case returns exactly the new user |
| `Auth.CurrentUser` | server.js:261-272 | returns a user with the token's id, or 404 exactly when there is none |
| `Ordering.Sort` | server.js:361 | the result of `ORDER BY` is ordered by the key and is a permutation of its input |
| `Tables.TradesOfMembers` | server.js:360 | `WHERE user_id = $1` keeps exactly the user's trades |
| `Trades.Direction` | server.js:403 | the sign is +1 or -1; it is +1 exactly for `buy` in any letter case |
| `Trades.DirectionOfStoredSide` | server.js:403-410 | the upper-cased side that is stored gives the same direction as the side that was sent |
| `Trades.ManualProfitFormula` | server.js:399-404 | with a truthy exit price the profit is 100000 × (exit − entry) × lots × direction, for any lot size, negative ones included |
| `Trades.ManualProfitSign` | server.js:399-404 | with positive lots, a buy profits exactly when the price rose and anything else exactly when it fell |
| `Trades.ManualProfitMirror` | server.js:403 | a buy and a sell of the same move have opposite profits |
| `Trades.NewManualTrade` | server.js:392-410 | 400 exactly when symbol, type, lots or entryPrice is falsy. Otherwise the row stores the input with the type upper-cased, and its profit is the pip-model profit of the trade sent, which is 0 without a truthy exit price |
| `Trades.Without` | server.js:430-433 | after the delete, no remaining row matches (id, user), every remaining row was in the table, and the table does not grow |
| `Trades.WithoutSpec` | server.js:430-437 | a row is deleted exactly when some row matches both ids, and every row that does not match is kept |
| `Trades.WithoutOtherUsers` | server.js:430-433 | deleting one user's trade leaves every other user's trades unchanged and in order |
| `Trades.WithoutRemovesOne` | server.js:430-437 | with unique ids, a successful delete removes exactly one row |
| `Trades.WithoutKeepsIdsIncreasing` | server.js:430-433 | deleting keeps trade ids increasing along the table |
| `Trades.WindowConsecutive` | server.js:362 | two consecutive pages of the same size neither skip nor repeat a row: together they are the page of twice that size. This holds for the one order the model fixes; `server.js` gives no such guarantee for tied rows (see `Trades.TiedPagesMayRepeat`) |
| `Trades.WindowWhole` | server.js:362 | a page from offset 0 with a limit at least the number of rows returns every row, in order |
| `Trades.TiedPagesMayRepeat` | server.js:361-362 | `ORDER BY closed_at DESC NULLS FIRST` has no tiebreaker: two open trades sort validly either way round, and a first page cut from one order with a second page cut from the other repeats a trade and skips the other |
| `Trades.OrderedTrades` | server.js:358-362 | the user's trades are a permutation of their rows, with open trades first and closed trades latest close first |
| `Trades.ListTrades` | server.js:352-377 | limit 50 and offset 0 by default. A negative limit or offset is an error. A zero or missing limit becomes 50, as `parseInt(..) || 50` does. Otherwise the page is exactly the `LIMIT`/`OFFSET` slice of the user's trades ordered open-first then latest-closed first, so it holds as many as limit and offset allow, and `total` counts all the user's trades |
| `Trades.ListTradesWholeTable` | server.js:358-374 | a page at least as large as the user's trade count returns every one of the user's trades and no other |
| `Equity.CheckEquity` | server.js:484-486 | a missing, zero or non-numeric equity is rejected; any other value, negative ones included, is accepted as it is |
| `Equity.Latest` | server.js:288-291 | the snapshot picked belongs to the user and has the greatest `recorded_at` of the user's snapshots; none is picked exactly when the user has none |
| `Equity.CurrentEquityAfterAppend` | server.js:288-289 | a snapshot appended no earlier than the user's others becomes the equity the model reports. With a strictly later `recorded_at` this is what `server.js` reports too; with an equal one PostgreSQL may report the other snapshot (see the `Equity.Latest` line under Left out) |
| `Equity.HistoryRows` | server.js:456-462 | the history is in ascending `recorded_at` order and is a permutation of the user's snapshots after the cut-off |
| `Equity.HistoryRowsMembers` | server.js:457-461 | a snapshot is in the history exactly when it is the user's and was recorded after `now − days·86400` (30 days by default) |
| `Equity.HistoryRowsSelected` | server.js:457-461 | every row of the history is a snapshot of the user recorded after the cut-off |
| `Equity.History` | server.js:451-470 | the points are in date order, all later than the cut-off, and each carries the equity and time of one of the user's snapshots. The points are exactly the selected snapshots, one each, in order |
| `Stats.Closed` | server.js:304 | keeps only trades with a close time |
| `Stats.ClosedMembers` | server.js:304 | `closed_at IS NOT NULL` keeps exactly the trades with a close time, every one of them |
| `Stats.GrossProfit` | server.js:315-318 | the sum of the positive profits is never negative |
| `Stats.GrossLoss` | server.js:319-322 | the sum of the absolute losses is never negative |
| `Stats.Best` | server.js:301 | `MAX(profit)` is the profit of some row and bounds all of them from above |
| `Stats.Worst` | server.js:302 | `MIN(profit)` is the profit of some row and bounds all of them from below |
| `Stats.CountsPartition` | server.js:296-298 | every trade is exactly one of winning, losing or zero-profit |
| `Stats.WinningLosingBound` | server.js:294-305 | winning + losing + zero-profit closed trades = total closed trades, so winning + losing ≤ total |
| `Stats.WinRateSpec` | server.js:309-312 | the win rate lies in [0, 100]. It is 0 exactly when no closed trade won, and it is winning/total·100 when a closed trade exists |
| `Stats.GrossLossPositive` | server.js:319-326 | gross loss is positive exactly when some trade lost money |
| `Stats.GrossProfitPositive` | server.js:315-318 | gross profit is positive exactly when some trade made money |
| `Stats.ProfitFactorOfTrades` | server.js:314-326 | the profit factor is never negative and 0 exactly when nothing lost or nothing gained; it is gains/losses once a loss exists |
| `Stats.ProfitFactorSpec` | server.js:314-326 | the dashboard's profit factor is gross profit over gross loss of ALL the user's trades, open ones included, and never negative |
| `Stats.ProfitFactorZero` | server.js:324-326 | the dashboard's profit factor is 0 exactly when none of the user's trades lost money or none made money |
| `Stats.AverageBetweenExtremes` | server.js:300-302 | the average profit lies between the worst and the best trade |
| `Stats.ExtremesSpec` | server.js:299-304 | best, worst and average come from closed trades: best and worst are profits of closed trades and bound them all, and the average lies between them. Without closed trades all of them, and the total, are 0 |
| `Stats.EquitySpec` | server.js:288-289 | the reported equity is that of the user's most recent snapshot, or 0 when the user has none |
| `Stats.NoClosedTradesGivesZeros` | server.js:310-312 | a user without a closed trade gets zero counts, win rate, average, best, worst and total. There is no division by zero |
| `Stats.OpenTradeOnlyMovesProfitFactor` | server.js:304 | recording an open trade changes no figure except the profit factor |
| `Stats.OpenTradeCountsInProfitFactor` | server.js:315-326 | a user with one closed losing trade and one open winning trade has 0 wins among closed trades and a profit factor of 2 |
| `Registry.CheckConnect` | server.js:514-524 | 400 exactly when a field is falsy or the lower-cased platform is neither `mt4` nor `mt5`; on success the platform is lower-cased |
| `Registry.PlatformLetterCase` | server.js:520 | `MT4` and `Mt5` are accepted as `mt4` and `mt5`; `mt6` is refused |
| `Registry.DeactivateClears` | server.js:537-540 | after the `UPDATE` the user has no active connection left |
| `Registry.ConnectedSpec` | server.js:530-549 | after a connect the user has exactly one active connection, the new row. The user's older rows keep all fields except `active`, which is now false. Other users' rows are unchanged and no row is deleted |
| `Registry.ConnectKeepsAtMostOneActive` | server.js:529-549 | connecting preserves "at most one active connection per user" |
| `Registry.NewConnection` | server.js:544-548 | the stored row is active, has the lower-cased platform and the given credentials, and exists only when validation passes |
| `Registry.OrderedConnections` | server.js:566-570 | the listing is a permutation of the user's rows, newest first |
| `Registry.ListConnections` | server.js:564-576 | lists the user's connections newest first, one entry per row of that user, each without the API key or secret |
| `Registry.ListConnectionsComplete` | server.js:566-570 | every connection of the user appears in the listing |
| `Server.Store.Register` | server.js:136-200 | a rejection leaves every table unchanged. Success appends one user with the next id, the lower-cased email and the name `name || fullName || ''`. The table invariant is kept, and the response holds only id, email and name |
| `Server.Store.Login` | server.js:203-258 | the login outcome for the current users table; a success reveals only id, email and name, never the password hash |
| `Server.Store.Me` | server.js:261-277 | the `/api/auth/me` outcome for the current users table; a success reveals id, email, name and creation time only |
| `Server.Store.GetStats` | server.js:283-345 | the dashboard summary of the current tables |
| `Server.Store.ListTrades` | server.js:352-383 | the trade page of the current table |
| `Server.Store.AddManualTrade` | server.js:386-422 | appends the validated row with the next id, or changes nothing |
| `Server.Store.DeleteTrade` | server.js:425-445 | the trades table loses exactly the row matching both ids, or 404 leaves it unchanged. Nothing else changes |
| `Server.Store.EquityHistory` | server.js:451-476 | the equity history of the current table |
| `Server.Store.AddEquitySnapshot` | server.js:479-502 | appends one snapshot stamped `now`, or 400 leaves the table unchanged; the store invariant is kept |
| `Server.Store.ConnectBroker` | server.js:508-561 | a rejection leaves the registry unchanged. Success yields the table `Registry.Connected` describes, and "at most one active per user" is kept. The response holds id, platform, account number and creation time, never the credentials |
| `Server.Store.Connections` | server.js:564-582 | the connection listing of the current table |

## Left out

- Express wiring is not modelled: helmet, CORS (whose origin callback always allows), JSON body parsing, static files, the 404 handler, `/health`, `app.listen` and the SIGTERM shutdown. These are framework plumbing.
- Request logging and rate limiting are left out as I/O.
- The PostgreSQL pool and its transport are replaced by sequences. Connection failures and the generic 500 responses are not modelled. The one exception is a negative LIMIT or OFFSET, which PostgreSQL rejects; the model returns `InvalidPaging` for it.
- Token issuance (`jwt.sign`, seven-day expiry) is left out. The register and login handlers return the public part of the user; the token is a foreign library result.
- `bcrypt.hash` and `bcrypt.compare` are parameters, because they are foreign library calls. No property of hashing is modelled.
- `toFixed(1)` and `toFixed(2)` rounding of win rate and profit factor is left out. The model keeps exact reals.
- `parseFloat`/`parseInt` on strings and NaN arithmetic are reduced to the `Option` inputs, so a profit that JavaScript would compute as NaN from a non-numeric exit price is not modelled.
- `toLowerCase`/`toUpperCase` are modelled on ASCII letters only.
- `password.length` counts Unicode scalar values here; JavaScript counts UTF-16 code units.
- Foreign-key and type errors of the database are not modelled: a trade for a user id that does not exist, and a non-numeric `:id` in the delete route.
- Check-then-insert races in register and connect are out of scope. Handlers run one at a time.
- `server.js` computes no "today's profit" and no count of open trades in `/api/stats`, so the model has neither.
- A broker connect in `server.js` does not purge the user's trades or snapshots.
- The connect handler stores the API key and secret it is sent, unencrypted, and provisions no remote gateway account.
- Broker provisioning, state polling, position/deal fetching and reconciliation are not part of `server.js`. They are not part of this model.
- Ordering.Sort: SQL leaves the order of rows with equal sort keys unspecified, and `server.js` adds no `id` tiebreaker to any of its `ORDER BY` clauses. The model fixes one order for tied rows per table state, and `Trades.ListTrades`, `Equity.History` and `Registry.ListConnections` are defined over that order. In `server.js`, which tied rows a page holds, and whether consecutive pages fit together, is not guaranteed: all open trades tie, and `Trades.TiedPagesMayRepeat` shows two valid orders whose pages repeat a trade.
- Equity.Latest: among snapshots with the same `recorded_at` the later row is taken. PostgreSQL may return any of them.
