# Leave requests (Urlopy): a Dafny model

This project models the core logic of a small leave-request (vacation) application.
It has three parts:

- **File-backed HTTP server (`server.js`).** Covers the role gate `allow`, the user helpers `getUser`, `isManagerOf`, `stripPass` and `cleanUndefined`, and the decisions taken by `/auth/login` and `/me`. The in-memory user list is an explicit parameter (`Server` module).
- **Browser client over the hosted database (`public/leaves.js`).**
  - The `users` and `leaves` tables are sequences. The `leaves` table, which the updates change, is held by the class `Leaves.LeaveStore`.
  - `submitLeave`, `managerApprove` and `adminFinalize` are methods that change the `leaves` table.
  - `meDays`, `listLeaves`, `managerInboxCount` and `adminInboxCount` are pure functions over the tables.
  - Three things are parameters: the signed-in user (`session`), the clock (`now`, `createdAt`), and a failing database call (`fault`).
- **Local-storage page script (`script.js`).** Covers the inclusive day count `daysBetween` and the seed database `DEFAULT_DB` (`Script` module). A date-only ISO string denotes midnight UTC. A date is therefore its day number since 1970-01-01. The count `(b - a) / 86400000 + 1` is exact integer arithmetic on those numbers.

Helper modules:

- `Wrappers`: `Option`.
- `Json`: primitive JavaScript values, truthiness, `String(v)` and `toLowerCase`.
- `Seqs`: `find`, `filter`, counting and newest-first ordering, with the lemmas that relate them.

The server checks roles only in its `allow` gate, and the client's operations need only a signed-in user. The code has no other guards, and the model follows the code:

- `managerApprove` and `adminFinalize` are unconditional updates of the row with the given id. They do not look at the row's status, and nothing stops a user from deciding their own request (`Leaves.ManagerApproveMovesToAdmin`, `Leaves.AdminFinalizeLeavesAdminInbox`).
- Repeating an approval succeeds again and does not fail (`Leaves.ManagerApproveIdempotent`).
- Only `adminFinalize` sets `rejected`, and `managerApprove` only approves. Neither checks the caller's role, so any signed-in user can call either.
- No balance is debited when a request is approved. `used_days` is only read.
- `submitLeave` copies the dates without checking their order.
- `daysBetween` gives 0 or less for a reversed range (`Script.DaysBetweenReversed`).
- The client applies no visibility filter of its own. `listLeaves` and `adminInboxCount` query the whole table.
- There is no operation that edits or deletes a request. Only the two approval updates change a row.

## Model

| member | source | states |
|---|---|---|
| `Server.Allow` | server.js:55-57 | `admin` and `hr` pass whatever roles are listed. Any other role passes iff it is listed. Every refusal is 403 `forbidden`. |
| `Server.AllowMonotone` | server.js:56 | Listing more roles never refuses a role that a shorter list admitted. |
| `Server.GetUser` | server.js:58 | Nothing iff no user has the id. Otherwise the result is the first user with that id. |
| `Server.GetUserUnique` | server.js:58 | When ids are unique, `getUser` returns the one user with the id. |
| `Server.StripPass` | server.js:59 | The result has every key of the input except `pass`, with the same values, and no `pass`. |
| `Server.CleanUndefined` | server.js:60 | The key-by-key copy loop keeps exactly the keys whose value is not `undefined`, with the same values. |
| `Server.DefinedPartIdempotent` | server.js:60 | Cleaning twice is cleaning once, and a cleaned record holds no `undefined`. |
| `Server.IsManagerOf` | server.js:61 | True iff the first user with the id exists and has the given manager. False for an unknown user id. |
| `Server.IsManagerOfUnique` | server.js:61 | When ids are unique, being the manager of a user is plain membership of a matching user. |
| `Server.Me` | server.js:72 | An unknown id gives nothing (the handler fails). A known id gives the id, name, email and role of the first user with that id, never `pass`. |
| `Server.Login` | server.js:65-71 | A missing email or password is 400 `missing_fields`, decided before any lookup. Success holds iff the first case-insensitive email match has exactly the submitted password. Every other outcome is 401 `bad_credentials`. The returned user is the profile of that first match, with exactly id, name, email and role. |
| `Server.FirstMatchUnique` | server.js:68 | `find` returns one definite user: there is at most one first email match. |
| `Server.LoginSameMatches` | server.js:66-70 | Two bodies with the same password whose emails match the same users get the same answer. |
| `Server.LoginCaseInsensitive` | server.js:68 | Two emails that lower-case alike give the same login decision. |
| `Server.LoginTriesFirstMatchOnly` | server.js:68-69 | Only the first matching user is tried. A later user with the same email and the right password is still refused with 401. |
| `Json.ToJsString` | server.js:68 | `String(v)`: a string is itself. An integer below 10^21 in magnitude is its decimal digits, after a `-` when negative, without leading zeros (`0` is `"0"`), and they read back as the number. Booleans, `null` and `undefined` give their names. |
| `Json.NatToDecimal` | server.js:68 | The decimal spelling of a non-negative integer is a non-empty digit string that reads back as the number. It starts with `0` only for 0, which is `"0"`. |
| `Json.Lower` | server.js:68 | Lower-casing keeps the length and maps every character on its own. |
| `Json.LowerIdempotent` | server.js:68 | Lower-casing is idempotent. |
| `Seqs.FirstIndex` | server.js:58 | The first position whose element satisfies the test: every earlier element fails it. Nothing iff no element satisfies it. |
| `Seqs.FirstIndexSame` | server.js:58 | Tests that agree on every element find the same position. |
| `Seqs.CountPositions` | public/leaves.js:39 | The length of a filtered result equals the number of positions whose row satisfies the filter. |
| `Seqs.SortDesc` | public/leaves.js:18 | Ordering by a key, descending, gives a sorted permutation of the rows. |
| `Leaves.MeDays` | public/leaves.js:3-15 | No session gives `{left: 0, total: 0}`. A failing query, or anything but exactly one row for the caller, throws. Otherwise `total` is the row's days (missing reads 0) and `left = total - used`, unclamped. |
| `Leaves.MeDaysOwnRow` | public/leaves.js:6-14 | When user ids are unique, a signed-in caller with a row gets exactly its own row's balance. |
| `Leaves.MeDaysNotClamped` | public/leaves.js:12-14 | 20 days granted and 25 used gives `left = -5`. |
| `Leaves.ListLeaves` | public/leaves.js:17-21 | The result is always ordered newest first. With no status (or an empty one) it is a permutation of all rows. With a status it is a permutation of the rows in that status. A failing query returns its error. |
| `Leaves.ManagerInboxCount` | public/leaves.js:31-40 | A signed-out caller throws. A failing query gives 0 with the error. Otherwise the count is the number of `submitted` rows whose owner's manager is the caller. |
| `Leaves.AdminInboxCount` | public/leaves.js:42-46 | The number of `manager_approved` rows, or 0 with the error. |
| `Leaves.UpdateWhereId` | public/leaves.js:50-54 | An update filtered on id changes exactly the rows with that id and keeps every other row. |
| `Leaves.UpdateOne` | public/leaves.js:54 | When leave ids are unique, the update is a replacement of one row. |
| `Leaves.ManagerApproveMovesToAdmin` | public/leaves.js:48-55 | After a manager approval the row is `manager_approved`, whatever its prior status. The admin inbox gains one unless the row was already there. Any manager's inbox loses the row if it held it. |
| `Leaves.AdminFinalizeLeavesAdminInbox` | public/leaves.js:57-64 | After an admin decision the row is `approved` or `rejected`, from any prior status. The admin inbox loses the row if it held it. |
| `Leaves.ManagerApproveIdempotent` | public/leaves.js:50-54 | Approving again with the same caller and time changes nothing more. There is no guard. |
| `Leaves.SubmitReachesManagerInbox` | public/leaves.js:26-28 | When the status column defaults to `submitted`, a submission by a report of `m` adds one to `m`'s inbox count. |
| `Leaves.LeaveStore.SubmitLeave` | public/leaves.js:23-29 | Signed out: throws and inserts nothing. A failing insert returns its error and inserts nothing. Otherwise exactly one row is appended with a new id. Its owner is the caller and its type, dates and comment are copied unchanged, with no date check. Leave ids stay unique. |
| `Leaves.LeaveStore.ManagerApprove` | public/leaves.js:48-55 | The table becomes the id-filtered update that sets `manager_approved`, `manager_id` = caller and the approval time. Rows with other ids are unchanged. Signed out or failing: nothing changes. |
| `Leaves.LeaveStore.AdminFinalize` | public/leaves.js:57-64 | The table becomes the id-filtered update that sets `approved` (or `rejected`), `admin_id` = caller and the time. Rows with other ids are unchanged. Signed out or failing: nothing changes. |
| `Script.DaysBetween` | script.js:25-27 | NaN (nothing) iff either string is not a date. Otherwise the millisecond quotient is exact and equals the day number of `b` minus that of `a`, plus one. |
| `Script.DaysBetweenSameDay` | script.js:24-26 | A date counts as one day. |
| `Script.DaysBetweenNextDay` | script.js:26 | A date and the next calendar day count as two days. |
| `Script.DaysBetweenAdditive` | script.js:26 | `daysBetween(a, c) = daysBetween(a, b) + daysBetween(b, c) - 1`. |
| `Script.DaysBetweenShift` | script.js:26 | Moving both dates by the same number of days, later or earlier, keeps the count, for any strings that denote the moved dates. |
| `Script.AddDays` | script.js:26 | The date `n` days after a valid date is valid and its day number is `n` more. |
| `Script.DaysBetweenFormatted` | script.js:26 | On two `YYYY-MM-DD` spellings of valid dates the count is the difference of their day numbers plus one. |
| `Script.DaysBetweenReversed` | script.js:26 | The count is at least 1 iff `b` is not before `a`, so a reversed range gives 0 or less. |
| `Script.DaysBetweenExamples` | script.js:24-26 | `2025-09-02` to itself is 1, to `2025-09-03` is 2, and reversed it is 0. |
| `Script.NextDayNumber` | script.js:26 | The day after a valid date is valid and has the next day number, across month, year and leap-day boundaries. |
| `Script.DayNumberOrder` | script.js:26 | Day numbers order valid dates exactly as the calendar does, and they are one to one. |
| `Script.EpochIsDayZero` | script.js:26 | 1970-01-01 is day 0, where the time value is 0. |
| `Script.ParseDate` | script.js:26 | `new Date(s)` on a date-only string. A date is read only from the forms `YYYY`, `YYYY-MM` and `YYYY-MM-DD`, and it is a valid calendar date. Its fields are the digits read at their positions. A missing month or day is 1. Each of the three forms, when it spells a valid date, gives a date. |
| `Script.ParseFormat` | script.js:26 | Parsing reads back every `YYYY-MM-DD` spelling of a valid date. |
| `Script.DefaultDb` | script.js:2-8 | The seed holds exactly two employees with different names and 20 leave days each, and no requests. |

## Left out

- JWT signing and verification (`sign`, `auth`, `JWT_SECRET`; server.js:5, 48-54) are calls into a cryptographic library. The login answer is modelled without its token, and the callers' id and role are plain parameters.
- Express wiring, CORS, JSON body limits and `app.listen` (server.js:8-10, 80) are HTTP plumbing.
- `loadDB`, `saveDB` and the module-level `db` with its seed (server.js:13-44) are file I/O. The user list is a parameter.
- `uid()` (server.js:19) draws on `Math.random` and the clock.
- The `/org` handlers (server.js:76-79): server.js ends part-way through the PUT handler, so its behaviour cannot be stated.
- Supabase authentication and client mechanics, and the `users` and `leaves` table schemas, are not part of this model.
  - Row-level security is also outside the model, so every query sees the whole table.
  - A new row's id is modelled as the next value of a counter.
  - A new row's status is the column default, held by the store as a constant.
  - Every other database failure is the `fault` parameter.
- `new Date().toISOString()` (public/leaves.js:52, 61) and the `created_at` default are opaque parameters.
- public/auth.js and main.js as a whole: sign-in wrappers, DOM form handling and redirects.
- script.js local-storage seeding and `readDB`/`writeDB` (lines 10-21), and the DOM rendering `populateEmployeeSelect`/`renderBalances` (lines 29-51).
- Concurrency between clients and ordering across requests are not modelled.
- `Json.Lower`: maps only the ASCII letters `A`-`Z`. `toLowerCase` also maps other Unicode letters, and this model does not.
- `Json.Value`: numbers are integers, and arrays and objects do not occur as field values. So `String(v)` of those and fractional numbers are not modelled.
- `Json.ToJsString`: numbers are unbounded integers, spelled in full decimal digits. JavaScript numbers are doubles: `String` writes a magnitude of 10^21 or more in exponent form (`String(1e21)` is `"1e+21"`), and integers above 2^53 are not all representable. The model is faithful only for integers below 10^21 in magnitude that a double holds exactly.
- `Server.CleanUndefined`: the key order of JavaScript objects is not modelled, because records are maps. Neither is the special effect of assigning a `__proto__` key.
- `Server.StripPass`: records are maps, so the order of the remaining keys is not modelled.
- `Server.Login`: the stored users are taken to have a string email. A user record without one would make `toLowerCase` throw before a later user is reached.
- `Leaves.ListLeaves`: rows with equal `created_at` may come in any order, as in the database. The model states sortedness and the permutation, not a particular tie order.
- `Script.ParseDate` and `Script.DaysBetween`: only the date-only ISO forms `YYYY`, `YYYY-MM` and `YYYY-MM-DD` with a four-digit year are dates here. Date-time strings, expanded years and the engine-specific fallback formats count as NaN. So do out-of-range days such as `2025-02-30`, which some engines roll over.
