# abizerwa server: a Dafny model of its handler logic

The server is an Express and MySQL service. It keeps accounts for shop users and admins, client debts in the
`abonizera` table, payment history, and support tickets. Under the callbacks, every handler follows the same
steps. It checks the body fields in a fixed order, looks something up, writes one table or the admin session
map, and shapes a reply. This project models those steps against an in-memory store and proves what each
handler promises.

- `Tables` is one table: a sequence of rows in insertion order, keyed by auto-increment ids. It defines
  INSERT, SELECT/UPDATE/DELETE by id, and "ORDER BY id DESC" as the table reversed.
- `Validation` holds the input rules:
  - the telephone pattern `^07[0-9]{8}$`;
  - the four-digit PIN;
  - the six-character admin password;
  - field presence.
- `Hashing` reduces bcrypt to an ideal digest. `Responses` holds the refusal reasons and the HTTP status of
  each.
- `Admins` covers the admin table and the `adminSessions` map:
  - the signup, login and profile-update checks;
  - `verifyAdmin` and the profile read;
  - the session-map updates (open, sync, close), written as functions.
- `Accounts` covers the users table: the signup and login checks, and the reset-token flow. The token is
  issued for ten minutes and cleared on use.
- `Clients` covers the `abonizera` rows:
  - the create, add-product and update checks, and the defaults they fill in;
  - the by-telephone selections and the deletion by telephone;
  - the balance arithmetic of update-balance.
- `ClientViews` holds the read-only client endpoints: by id, by creator, check-telephone, the grouped view
  per telephone, and the statistics.
- `History` holds the history rows the two writers insert. `Tickets` holds the ticket checks and the reads
  after each write. `Pagination` holds the page arithmetic of the ticket listing.
- `Server.Store` is a class that holds the five tables, their id counters and the session map. Each
  state-changing route is a method:
  - the method runs the route's checks (the pure `...Rejection` functions);
  - it refuses with the first failing reason and changes nothing;
  - otherwise it writes exactly what the route's statement writes, stated in its `ensures`.

  Every method keeps `Valid()`, which says:
  - ids ascend and stay below the counters;
  - admin emails are unique and user telephones are unique;
  - every session names an existing admin;
  - every stored client, user and ticket telephone matches the pattern.

Outside inputs are parameters of the methods:
- the clock (`now`);
- the random reset token (`IsToken`, six digits);
- the fresh session id;
- whether the history insert after a balance update succeeds (`historyStored`).

Amounts are what `parseInt` reads from the stored text: `Num(n)` or `NotANumber`. `AmountValue` is
`parseInt(x) || 0`. An empty string stands for an absent or falsy text field, and id 0 stands for an absent
or NULL id.

The update-balance UPDATE filters on `telephone` only (server.js:1175). It writes the new balance to every
row of that telephone, not only to the row the handler read, so a client with several products would end up owing
the balance once per product. This is a property of the handler body as written: while PUT `/api/clients/:id`
(server.js:888) is registered first and shadows the route, the handler is not reached. `Clients.SetBalance` models the statement as written and is shown wrong under
"## Findings". `Server.Store.UpdateBalance` writes the statement as written. `Clients.SetReadRowBalance` is the
corrected single-row write, and the store does not use it.

## Model

| member | source | states |
|---|---|---|
| Validation.TelephoneShape | server.js:380-383 | The telephone rule holds exactly for ten characters: `0`, `7`, then eight digits. |
| Validation.PinShape | server.js:375-378 | The PIN rule (length 4 and `^\d+$`) holds exactly for four characters that are all digits. |
| Validation.TelephoneIsDigits | server.js:375-383 | A valid telephone also passes `^\d+$`, has ten characters, and is never a valid PIN. |
| Validation.MatchesAnchoredAt | server.js:380 | An anchored pattern without repetition matches exactly the strings of its length that fit it position by position. |
| Hashing.Hash | server.js:66 | `compare(c, hash(s))` accepts exactly `c == s`. |
| Tables.Find | server.js:160-176 | None iff no row has the id. Otherwise the result is the first row with that id. |
| Tables.Insert | server.js:624-628 | INSERT appends exactly one row, under the next auto-increment id, and keeps the old rows as a prefix. |
| Tables.Remove | server.js:950-983 | Keeps exactly the rows with another id. |
| Tables.Replace | server.js:888-947 | Rows with the id get the new columns. Every other row is unchanged. |
| Tables.InsertWellFormed | server.js:410-412 | INSERT with the next auto-increment id keeps ids ascending and below the counter. |
| Tables.RemoveWellFormed | server.js:950-983 | DELETE by id keeps the table well formed. |
| Tables.ReplaceWellFormed | server.js:917-919 | UPDATE by id keeps the table well formed. |
| Tables.RemoveExactlyOne | server.js:950-983 | With unique ids, DELETE by id removes exactly the row at that id's position and keeps the rest in order. |
| Tables.RemoveAbsent | server.js:950-983 | Deleting an id no row has changes nothing. |
| Tables.RemoveCount | server.js:950-983 | Deleting a present id drops the row count by exactly one. |
| Tables.FindInserted | server.js:1252-1298 | After INSERT, the new id finds the new row and every other id finds what it found before. |
| Tables.FindReplaced | server.js:1350-1409 | After UPDATE, the id finds the new columns and every other id finds what it found before. |
| Tables.FindRemoved | server.js:1412-1445 | After DELETE, the id finds nothing and every other id finds what it found before. |
| Tables.NewestFirst | server.js:1301-1319 | With ascending ids, the reversed table lists ids strictly descending (ORDER BY id DESC). |
| Tables.Reverse | server.js:757-759 | ORDER BY id DESC over a table whose ids ascend: position i holds the row at position n-1-i. |
| Admins.FindByEmail | server.js:53-63 | None iff no admin has the email. Otherwise the result is an admin with that email. |
| Admins.SignupRejection | server.js:44-63 | Each reason holds exactly when the earlier checks pass and its own fails. MissingFields iff a field is absent. ShortPassword iff all are present and the password is under 6 characters. EmailTaken iff the password is long enough and some admin has the email. Accepts iff none applies, and every refusal is a 400. |
| Admins.LoginCheck | server.js:93-120 | Missing fields iff email or password is absent. Accepts only an admin with that email whose digest verifies the password. Every refusal is a 400. |
| Admins.LoginAcceptsIff | server.js:90-120 | With unique emails, login accepts exactly the password of the admin that has that email. |
| Admins.VerifyAdmin | server.js:143-157 | 401 iff the header is absent or unknown (NoSession iff absent). Otherwise the result is the session the map holds. |
| Responses.Status | server.js:143-171 | The codes the handlers send: always one of 400, 401, 404 and 500. 401 iff the session is missing or invalid. 500 iff the database refused the statement. |
| Admins.Profile | server.js:160-176 | Passes on verifyAdmin's refusal. AdminNotFound iff the session's admin id has no row. Otherwise the result is the view of that row. |
| Admins.ProfileUpdateRejection | server.js:179-253 | Passes on verifyAdmin's refusal. Then, each iff the earlier checks pass: MissingFields when email or telephone is absent; AdminNotFound when the session's admin has no row; EmailTaken when the email changes to one another admin has; CurrentPasswordRequired when a new password comes without the current one; WrongCurrentPassword when the current one does not verify. Accepts iff none applies. The statuses are 401, 404 for AdminNotFound and 400 otherwise. |
| Admins.UpdatedAdmin | server.js:255-266 | Writes the new email and telephone. The digest is new iff a new password is given. |
| Admins.OpenSession | server.js:123-128 | Adds exactly the new session id, mapped to the admin's `{id, email, telephone}`. Other entries are unchanged. |
| Admins.SyncSession | server.js:273-279 | Rewrites email and telephone of the caller's entry only and keeps its admin id. Keys and other entries are unchanged. |
| Admins.CloseSession | server.js:355-361 | The header's entry is gone (nothing changes without a header). Other entries are unchanged. |
| Admins.LoginThenVerify | server.js:123-157 | After login, the new session id resolves to that admin's `{id, email, telephone}`. |
| Admins.LogoutThenVerify | server.js:355-361 | After logout the header is refused by verifyAdmin, and logging out twice equals logging out once. |
| Admins.InsertKeepsEmailsUnique | server.js:53-83 | Admin signup, which checks the email first, keeps emails unique. |
| Admins.EmailUsedByOther | server.js:204-212 | `email = ? AND id != ?` finds a row: some admin other than the caller has the email. |
| Admins.ProfileUpdateKeepsEmailsUnique | server.js:202-266 | A profile update that passed its email check keeps emails unique. |
| Accounts.FindByTelephone | server.js:388-399 | None iff no user has the telephone. Otherwise the result is the first such user. |
| Accounts.SignupRejection | server.js:370-399 | Each reason holds exactly when the earlier checks pass and its own fails. MissingFields iff one of the four fields is absent. BadPin iff the PIN is not four digits. BadTelephone iff the telephone does not match. TelephoneTaken iff some user has it. Accepts iff none applies, and every refusal is a 400. |
| Accounts.InsertKeepsTelephonesUnique | server.js:388-412 | User signup, which checks the telephone first, keeps telephones unique. |
| Accounts.NewUser | server.js:402-412 | The stored PIN digest verifies the PIN, and the new row has no reset token. |
| Accounts.Login | server.js:443-497 | The MissingFields, BadPin and UnknownTelephone cases are each characterised exactly. Success implies a user with that telephone whose digest verifies the PIN, and the result is the view of that user. |
| Accounts.LoginSucceedsIff | server.js:443-497 | With unique telephones, login succeeds iff the telephone is present, the PIN is well formed, and the PIN verifies for that telephone's user. |
| Accounts.SignupThenLogin | server.js:364-497 | After a successful signup, login with the same telephone and PIN returns the new user. |
| Accounts.IssueToken | server.js:526-530 | Token and expiry are written on every row of that telephone and on no other row. |
| Accounts.ResetPin | server.js:586-588 | The new digest is written on every row of that telephone, and its token and expiry are cleared. No other row changes. |
| Accounts.ResetRejection | server.js:557-574 | BadNewPin iff the new PIN is not four digits. InvalidToken iff the PIN is well formed and no row has that telephone, that token and an expiry after now. Accepts iff neither applies. Every refusal is a 400. |
| Accounts.TokenMatches | server.js:562-566 | The reset SELECT finds a row: some user has the telephone, the token and an expiry after now. |
| Accounts.IssuedTokenAccepted | server.js:522-574 | A token just issued is accepted at any time before now + 10 minutes. |
| Accounts.IssuedTokenExpires | server.js:522-574 | The issued token is refused from 10 minutes on. |
| Accounts.ResetConsumesToken | server.js:563-588 | After a reset no token matches that telephone, so a second reset with the same token fails. |
| Accounts.ResetThenLogin | server.js:551-602 | After a reset, login with the new PIN succeeds. |
| Accounts.TokenUpdatesKeepTelephones | server.js:528-588 | Both token updates keep every row's id and telephone. |
| Clients.AmountValue | server.js:834-838 | `parseInt(x) \|\| 0`: a number is kept, NaN counts as 0. |
| Clients.CreateRejection | server.js:612-621 | MissingFields iff one of name, telephone, creator id and creator telephone is absent. BadTelephone iff they are all present and only the pattern fails. Accepts iff neither applies. Every refusal is a 400. |
| Clients.NewClient | server.js:625-627 | The inserted row has the given name, telephone, creator id and creator telephone, and no updater. A given product is stored, otherwise "Nta bicuruzwa". A given amount is stored, otherwise 0. A given creator name is stored, otherwise "System". |
| Clients.FirstWithTelephone | server.js:674-688 | None iff no row has the telephone. Otherwise the result is the first such row in table order. |
| Clients.AddProductRejection | server.js:661-686 | MissingFields iff a required field is absent. BadTelephone iff they are present and the pattern fails. ClientNotFound iff the telephone matches and no row has it. Accepts iff none applies. ClientNotFound is a 404 and the others are 400s. |
| Clients.AddedProduct | server.js:688-692 | The inserted row takes its name from the client's existing row, and its telephone and product as given. A given amount is stored, otherwise 0. A given creator name is stored, otherwise "System". The creator id and telephone are as given, and there is no updater. |
| Clients.UpdateRejection | server.js:894-913 | MissingFields iff name or telephone is absent. BadTelephone iff both are present and the pattern fails. ClientNotFound iff the checks pass and no row has the id. Accepts iff none applies. ClientNotFound is a 404 and the others are 400s. |
| Clients.Overwritten | server.js:917-919 | Name and telephone are as given. A given product is stored, otherwise "Nta bicuruzwa". A given amount is stored, otherwise 0. The creator and updater columns stay. |
| Clients.WithTelephone | server.js:813-817 | Keeps exactly the rows with that telephone. |
| Clients.WithoutTelephone | server.js:986-1019 | Keeps exactly the rows with another telephone. The count drops by the number of rows with the telephone. |
| Clients.BalanceUpdate | server.js:1160-1176 | ClientNotFound (404) iff no row has the telephone. StoreRejected when either amount is NaN. Otherwise newBalance is the first row's amount plus the added amount, and the reply's client is that row with the new amount. |
| Clients.SetBalance | server.js:1174-1176 | Every row of that telephone gets the new amount and updater. Rows of other telephones are unchanged. |
| Clients.DeleteProductKeepsSiblings | server.js:950-983 | Deleting a product by id leaves exactly one row fewer under its telephone and keeps every other row. |
| Clients.WithTelephoneConcat | server.js:813-817 | Selecting by telephone distributes over concatenation. |
| Clients.SetReadRowBalance | server.js:1161-1176 | The corrected write: the row the handler read gets the new amount and updater, and every other row is unchanged. |
| Clients.SetBalanceKeepsKeys | server.js:1174-1176 | The balance UPDATE changes no id and no telephone. |
| Clients.WithoutTelephoneWellFormed | server.js:986-1019 | Deleting by telephone keeps the table well formed. |
| ClientViews.CreatorOf | server.js:813-815 | The LEFT JOIN gives the creator's name and telephone iff a user has that id, and NULLs otherwise. |
| ClientViews.Joined | server.js:755-757 | One listed row per table row, in the same order, each with its creator from the LEFT JOIN. |
| ClientViews.CreatedBy | server.js:758 | `a.created_by = ?`: every row kept has that creator and comes from the table, and every such row of the table is kept. |
| ClientViews.CreatedByAscending | server.js:758-759 | The user's rows of a table with ascending ids have ascending ids, so reversing them lists the newest first. |
| ClientViews.ClientById | server.js:777-805 | ClientNotFound iff no row has the id. Otherwise the result is that row with its creator join. |
| ClientViews.MyClients | server.js:750-774 | Lists only rows created by that user, each joined with its creator, with ids strictly descending. |
| ClientViews.MyClientsComplete | server.js:750-774 | Every row the user created appears in the listing. |
| ClientViews.CheckTelephone | server.js:856-885 | None iff no row has the telephone. Otherwise the result is a name stored under it. |
| ClientViews.GroupView | server.js:830-844 | The name is the one on the last of the given rows. Product j is row `n-1-j` of the telephone's rows, with its amount read by `\|\| 0`. The total is both the sum of the product amounts and the debt of the rows. |
| ClientViews.ClientByTelephone | server.js:808-853 | 404 iff no row has the telephone. Otherwise the view has one product per matching row, and `totalAmount` equals the sum of the product amounts and the debt of those rows. |
| ClientViews.ClientViewEntries | server.js:830-843 | Product j carries the id and amount (read by `\|\| 0`) of row n-1-j of the telephone's rows in table order. The view's name is the one on the last of those rows. `ClientViews.ClientViewNewestFirst` shows that this is newest first. |
| ClientViews.WithTelephoneAscending | server.js:816-817 | The telephone's rows of a table with ascending ids have ascending ids. |
| ClientViews.ClientViewNewestFirst | server.js:817-831 | On a table with ascending ids, the view's product ids strictly descend (ORDER BY a.id DESC). The view's name is the one on the telephone's row with the largest id (`clients[0].amazina`). |
| ClientViews.ClientViewComplete | server.js:830-843 | Every row with the telephone appears among the products with its id and amount. |
| ClientViews.DebtReverse | server.js:834 | The debt sum does not depend on the listing order. |
| ClientViews.DebtIsSumOfEntries | server.js:834-838 | The `reduce` total equals the sum of the `map`ped amounts. |
| ClientViews.SetBalanceDebt | server.js:1174-1176 | After the UPDATE as written, the telephone's debt is the new balance times its number of rows. |
| ClientViews.SetBalanceOvercounts | server.js:1160-1176 | For any two rows of one telephone at 1000 and 0, adding 500 gives a new balance of 1500 but leaves a debt of 3000 where 1500 is due. |
| ClientViews.ReplaceRowDebt | server.js:1174-1176 | Rewriting one row of a telephone changes that telephone's debt by the row's old and new amounts. |
| ClientViews.SetReadRowBalanceDebt | server.js:1160-1176 | With the balance written to the row the handler read, the telephone's debt grows by exactly the added amount. |
| ClientViews.DebtSplitsByTelephone | server.js:1036-1038 | The total debt is the debt of one telephone plus the debt of all the others. |
| ClientViews.Telephones | server.js:1033 | A telephone is in the set iff some row has it. |
| ClientViews.TelephonesBound | server.js:1033-1035 | There are never more distinct telephones than rows. |
| ClientViews.ClientStats | server.js:1033-1038 | `totalClients` is the number of distinct telephones, `totalProducts` the row count and `totalDebt` the debt sum. `totalClients <= totalProducts`, and `totalClients` is 0 iff the table is empty. |
| ClientViews.ClientsAreTelephones | server.js:1033-1034 | A telephone is counted as a client iff the client view answers for it. |
| ClientViews.TelephonesWithout | server.js:986-1019 | Deleting a client removes exactly its telephone from the distinct set. |
| ClientViews.DeleteClientStats | server.js:986-1038 | After deleting a client, the stats drop by one client, its product count and its total. |
| History.RecordRejection | server.js:1057-1060 | Accepts iff the client id, name and telephone are present. Otherwise the result is MissingFields (400). |
| History.Payment | server.js:1064-1066 | The inserted row carries the given client id, name and telephone. A given amount is stored, otherwise 0. Product, author and date are left unset. |
| History.BalanceRecord | server.js:1184-1186 | The history row keeps the client's name and telephone, the added amount (not the balance), the new product, the author and the call's time. |
| Tickets.TicketRejection | server.js:1257-1266 | Accepts iff the name is present and the telephone matches. MissingFields and BadTelephone are each characterised exactly. |
| Tickets.TicketOf | server.js:1270-1272 | The description is NULL iff it is absent. |
| Tickets.TicketById | server.js:1322-1347 | TicketNotFound (404) iff no ticket has the id. Otherwise the result is that ticket. |
| Tickets.UpdateRejection | server.js:1356-1375 | The field checks come first, then TicketNotFound iff they pass and the id is missing. |
| Tickets.Newest | server.js:1301-1319 | The listing is a permutation of the table with ids strictly descending. |
| Tickets.ReverseMultiset | server.js:1301-1319 | Reversing keeps the multiset of rows. |
| Tickets.CreateThenGet | server.js:1252-1347 | A created ticket is found under its new id. |
| Tickets.UpdateThenGet | server.js:1350-1409 | An updated ticket reads back with the new columns. |
| Tickets.DeleteThenGet | server.js:1412-1445 | A deleted ticket is gone and every other ticket reads as before. |
| Pagination.OrDefault | server.js:1449-1450 | The fallback is taken iff the parse is NaN, 0 or the fallback itself. A nonzero fallback gives a nonzero result. |
| Pagination.CeilDiv | server.js:1463 | `total <= totalPages * limit < total + limit`, which pins `ceil(total / limit)`. |
| Pagination.Window | server.js:1466-1468 | LIMIT/OFFSET returns at most `limit` items, the ones at `offset + i`. It is full when there is room, and empty iff the offset is past the end or the limit is 0. |
| Pagination.OffsetSign | server.js:1449-1451 | For nonzero page and limit, LIMIT or OFFSET is negative iff page or limit is. |
| Pagination.Paginate | server.js:1448-1490 | 500 iff page or limit is negative. Otherwise: the items are the window at `(page-1)*limit`, totalPages is the ceiling, `hasNext` iff `page < totalPages`, and `hasPrev` iff `page > 1`. |
| Pagination.TicketPage | server.js:1448-1490 | Paging the ticket table newest first: `totalTickets` is the table's size, every item is a ticket of the table, and the items' ids strictly descend. |
| Pagination.HasNextIff | server.js:1463-1483 | `hasNext` iff some ticket lies beyond the current page. |
| Pagination.NonEmptyIff | server.js:1463-1483 | A page has items iff its number is at most totalPages. |
| Pagination.EveryTicketOnItsPage | server.js:1449-1468 | Ticket k of the listing is item `k % limit` of page `k / limit + 1`. |
| Server.ProfileUpdateKeepsAdminState | server.js:255-279 | A checked profile update, and then the session sync, each keep the admin invariant. |
| Server.SyncKeepsSessionsKnown | server.js:273-279 | Syncing the caller's entry keeps every session pointing at an admin. |
| Server.Store.constructor | server.js:36 | An empty store with no sessions and every counter at 1. |
| Server.Store.AdminSignup | server.js:41-87 | Refuses iff the signup checks fail, and then nothing changes. Otherwise it inserts the hashed admin under the next id and replies `{id, email, telephone}`. |
| Server.Store.AdminLogin | server.js:90-140 | Refuses iff the login check fails, and then the sessions are unchanged. Otherwise it opens exactly the new session, which verifyAdmin then resolves to that admin. |
| Server.Store.ProfileNeverMissing | server.js:160-176 | Under the store invariant, the profile read never answers AdminNotFound and succeeds whenever verifyAdmin does. |
| Server.Store.UpdateAdminProfile | server.js:179-299 | Refuses iff the profile-update checks fail, and then nothing changes. Otherwise it rewrites the caller's admin row, which then reads back with the new columns, and syncs only the caller's session entry. The reply is the re-read `{email, telephone}`, with no id. |
| Server.Store.AdminLogout | server.js:355-361 | Always succeeds. The sessions become `CloseSession` of the old map, and the header is refused afterwards. |
| Server.Store.Signup | server.js:364-440 | Refuses (400) iff the signup checks fail, and then inserts nothing. Otherwise it inserts the new user under the next id and login with that telephone and PIN succeeds. |
| Server.Store.ForgotPassword | server.js:500-548 | 404 iff no user has the telephone. Otherwise it stores the six-digit token with expiry now + 10 minutes and returns it. |
| Server.Store.ResetPassword | server.js:551-602 | Refuses exactly as the reset checks say, and then nothing changes. Otherwise it writes the new PIN digest and clears the token. |
| Server.Store.CreateClient | server.js:607-653 | Refuses iff the create checks fail, and then nothing changes. Otherwise it appends the row with its defaults under the next id. |
| Server.Store.AddProduct | server.js:656-723 | Refuses iff the add-product checks fail. Otherwise it appends a row under the next id with the name copied from the telephone's first row. |
| Server.Store.UpdateClient | server.js:888-947 | Refuses iff the update checks fail. Otherwise it overwrites the four columns of that id and the row reads back as the reply. |
| Server.Store.DeleteProduct | server.js:950-983 | 404 iff no row has the id, and then nothing changes. Otherwise it removes that row, and the count drops by exactly one. |
| Server.Store.DeleteClient | server.js:986-1019 | 404 iff no row has the telephone, and then nothing changes. Otherwise it removes every row of that telephone and no other. |
| Server.Store.UpdateBalance | server.js:1154-1203 | The reply is `BalanceUpdate`, and a refusal changes nothing. On success the clients become `SetBalance` of the old rows: every row of the telephone gets the new balance and `updated_by`, as `WHERE telephone = ?` does, and every other row is unchanged. The history row is appended iff its insert succeeds, and the reply does not depend on it. |
| Server.Store.RecordHistory | server.js:1052-1080 | 400 iff a required field is absent. Otherwise it appends the payment row and replies with its id. |
| Server.Store.CreateTicket | server.js:1252-1298 | Refuses iff the ticket checks fail. Otherwise it appends the ticket under the next id, and it reads back under that id. |
| Server.Store.UpdateTicket | server.js:1350-1409 | Refuses iff the checks or the existence check fail. Otherwise it rewrites the three columns, and the ticket reads back with them. |
| Server.Store.DeleteTicket | server.js:1412-1445 | 404 iff no ticket has the id, and then nothing changes. Otherwise it removes the ticket, which is then not found. |

## Left out

- Express routing, CORS, environment loading, the MySQL connection and console logging are I/O plumbing. The
  store is in memory, and each handler is a standalone operation.
- Express matches routes in order, so GET `/api/clients/:id` shadows `/api/clients/stats` and PUT
  `/api/clients/:id` shadows `/api/clients/update-balance`. The router is not modelled. The shadowed handler
  bodies are modelled as they are written.
- Database errors are not modelled: a failing query, hash or insert answers 500. The one exception is the
  statements the model knows the database refuses: a NaN balance and a negative LIMIT or OFFSET.
- bcrypt is an ideal digest with no salt, no cost factor and no collisions.
- `Date.now()`, `new Date()`, `Math.random()` and the session-id generator are parameters. A token is a
  six-digit integer. The source sends it as text and the database compares it as text.
- `parseInt` on arbitrary strings is abstracted. A stored amount is `Num(n)` or `NotANumber`, and a pagination
  parameter is `Option<int>` (None is NaN). Partial parses such as "12abc" are not modelled.
- The LEFT JOINs are modelled as lookups of the user by id. The listings that ORDER BY name
  (`/api/clients`), `/api/history` and `/api/history/user/:userId` are not modelled. Neither are
  `/api/clients/check/:telephone` and the admin user-management routes (`/api/admin/users`,
  `/api/admin/user/:id`), which lie outside the modelled core.
- The health and test endpoints are diagnostics and are not modelled. Neither are the `created_at` timestamps,
  which are only echoed.
- Text comparisons are exact. MySQL's default collation compares case-insensitively and ignores trailing
  spaces.
- Lengths are counted in Dafny characters, not UTF-16 code units.
- Requests are sequential. The read-modify-write race in update-balance is not modelled.
- Server.Store.ResetPassword: when `newPassword` is absent, the source throws on `.length` before any check,
  and Express answers 500. The model takes an absent PIN as "" and refuses it as BadNewPin.
- Server.Store.UpdateAdminProfile: only the caller's session entry is synced, as in the source. Other sessions
  of the same admin keep the old email and telephone, and the model does not state them as stale.
- `SELECT ... WHERE telephone = ? LIMIT 1` without ORDER BY (server.js:675, 861, 1161) returns some matching
  row. The model takes the first row in table order, the lowest id. That choice fixes the name add-product
  copies and the base amount of update-balance.
- JavaScript numbers are doubles, so `parseInt` results and sums above 2^53 lose precision, and so does the
  page arithmetic. Dafny integers are exact.
- The reset expiry is a JavaScript `Date` stored in a MySQL DATETIME (server.js:525, 564). The column's
  fractional-second precision can move the exact 10-minute boundary by up to a second. IssuedTokenAccepted and
  IssuedTokenExpires state the boundary in exact milliseconds.
- History.Payment: POST /api/history leaves `history_date` out of its INSERT (server.js:1065). The model takes
  the column's default to be NULL. The schema is not part of this model.
- Route parameters such as `:id` arrive as strings and MySQL coerces them. The model takes them as natural
  numbers and does not model the coercion of malformed ids.
- Server.Store.ForgotPassword: the route does not check the telephone's format. The model returns UserNotFound
  for any telephone that no user has, including a malformed one.

## Findings

| source | as written | input that shows it | evidently intended | confidence | as-written member | corrected member |
|---|---|---|---|---|---|---|
| server.js:1174-1176 | update-balance runs `UPDATE abonizera SET amafaranga = ?, updated_by = ? WHERE telephone = ?`, which writes the new balance to every row of the telephone | two rows of one telephone at 1000 and 0, plus 500: the reply says 1500, but the rows hold 1500 each, so the client view totals 3000; this is about the handler body as written, which is unreachable while PUT `/api/clients/:id` (server.js:888) shadows the route | the balance goes to the row that was read, so the client's total grows by the added amount (1500 here) | medium, not executed | `ClientViews.SetBalanceOvercounts` (about `Clients.SetBalance`) | `ClientViews.SetReadRowBalanceDebt` (about `Clients.SetReadRowBalance`) |
