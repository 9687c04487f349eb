# Room booking server: a verified model of its handlers

The booking application's server, `server.js`, is an Express API over a MySQL
database. Its users register and log in, list rooms (optionally filtered by
name and capacity, with per-date availability), reserve a room for a date and
an optional time, cancel reservations, toggle favourite rooms and review rooms.
Administrators cancel any reservation and update rooms.

This project models the decision logic of those handlers in Dafny over an
in-memory copy of the database and proves what they promise.

- `types.dfy`: the table rows (`User`, `Room`, `Reservation`, `Review`), the
  status codes, JavaScript's `Number(x)` results and the partial room update.
- `text.dfy`: `String.prototype.trim` over ECMAScript white space, ASCII
  lower-casing and the substring test used by the room search.
- `booking.dfy`: the conflict query run before every reservation and the
  no-double-booking invariant it maintains. Also per-date availability, and
  deletion of a reservation by id.
- `accounts.dfy`: `isAdmin`, login, and the user lookups registration relies on.
- `rooms.dfy`: room lookup, `getRoomWithAvailability`, the filtered listing,
  and the SET clause of the administrator's room update.
- `feedback.dfy`: rating validation, the review invariant and the favourites toggle.
- `server.dfy`: class `Database`, holding the tables and their AUTO_INCREMENT
  counters, with one method per state-changing handler. Each method returns
  the handler's status, and `Valid()` is the invariant they all keep. It also
  holds three client scenarios:
  - a whole-day booking blocks a later timed request;
  - cancelling id 999999 answers 404, as `testes/reservations.test.js:13-16` expects;
  - missing login or registration fields answer 400, and room 999999 is not
    found, as `testes/auth.test.js` and `testes/rooms.test.js` expect.

How JavaScript values are encoded:
- An absent or falsy identifier is 0. Identifiers are naturals.
- An absent or empty text field is the empty string.
- `x || null` is `NullIfEmpty`.
- A field missing from an update body is `Keep`.

The reservation rule is the one the code implements. A reservation has one
optional `time` column, compared for equality. A request clashes with an
existing row for the same room and date if either time is NULL or the two
times are equal. The code stores no start or end time and performs no
interval overlap test, so neither does the model.

## Model

| member | source | states |
|---|---|---|
| Server.Database.Reserve | server.js:124-144 | 400 exactly when `userId` or `date` is missing; then 404 exactly for an unknown room; then 409 exactly when the conflict query finds a row. Otherwise 200, and exactly one reservation is appended, with the next id and an empty time stored as NULL, and the counter advances by one. Nothing changes on an error, and no double booking is ever created |
| Booking.BookingRuleIsExact | server.js:132-140 | from a state without double bookings, appending a row keeps it free of double bookings if and only if the conflict query for that row's room, date and time finds nothing |
| Booking.NoDoubleBookingIffSlotShape | server.js:132-140 | the pairwise invariant holds iff every (room, date) has either a single reservation with a NULL time, or only timed reservations with pairwise distinct times |
| Booking.AvailableIffUntimedRequestFits | server.js:44-50 | a room is reported available on a date iff no reservation exists for it on that date, whatever its time; this is exactly when a whole-day request passes the conflict query, and then every request passes it |
| Server.Database.CancelReservation | server.js:169-184 | 404 exactly when no reservation has the id, whoever asks. Then 403 exactly when the caller is neither an administrator nor the owner. Otherwise 200 and exactly that reservation is removed. Nothing changes on an error |
| Server.Database.AdminCancelReservation | server.js:312-320 | 403 exactly when the caller is not an administrator. Then 404 exactly for an unknown id. Otherwise 200 and exactly that reservation is removed. Nothing changes on an error |
| Server.Database.Delete | server.js:182 | deleting the row at position `k` leaves the rows before and after it, and keeps the invariant |
| Booking.IndexOf | server.js:172-173 | finds the first reservation with the id, and nothing exactly when no reservation has it |
| Booking.RemoveKeepsOthers | server.js:182 | `DELETE ... WHERE id = :id` keeps exactly the rows with another id |
| Booking.RemoveOnlyThatRow | server.js:182 | with unique ids, deleting the id of row `i` removes that row and leaves the others in order |
| Booking.RemoveAbsentRow | server.js:316-318 | deleting an id that no row has changes nothing |
| Booking.DeleteKeepsInvariants | server.js:182 | deleting a row keeps reservation ids unique and keeps the state free of double bookings |
| Accounts.AdminIffFoundAdmin | server.js:31-38 | `isAdmin` is false for a falsy id; otherwise, with unique user ids, it is the admin flag of the user the id finds, and false when no user has the id |
| Accounts.RegisterKeepsAdmins | server.js:77-79 | registration inserts `is_admin = 0`, so every id is an administrator afterwards exactly when it was one before |
| Accounts.FindUser | server.js:265-266 | finds a user with the id, and nothing exactly when no user has it |
| Accounts.FindCredentials | server.js:59-62 | finds a user with that e-mail and password, and nothing exactly when none has both |
| Accounts.Login | server.js:55-68 | 400 iff e-mail or password is missing; 401 iff both are given and no user has that e-mail and password; otherwise the matching user |
| Server.Database.Register | server.js:70-83 | 400 iff a field is missing, 409 iff the e-mail is taken, otherwise 201 and a non-admin user with the next id is appended. That user can then log in with the same credentials, and the user counter advances by one. Nothing changes on an error |
| Server.Database.InsertUser | server.js:77-80 | appending a user with the next id and a free e-mail keeps ids and e-mails unique |
| Accounts.RegisterThenLogin | server.js:70-83 | after appending a user whose e-mail was free, login with that e-mail and password returns exactly that user |
| Accounts.AppendKeepsUsersWellFormed | server.js:77-80 | a new user with the next id and a free e-mail keeps the users table well formed |
| Rooms.FindRoom | server.js:41-43 | finds a room with the id, and nothing exactly when no room has it |
| Rooms.RoomIndex | server.js:347-348 | the position of the room with the id, and nothing exactly when no room has it |
| Rooms.RoomWithAvailability | server.js:40-52 | nothing for an unknown room. With a date, the stored row with only `available` replaced by the room's availability on that date; without one, the stored row unchanged |
| Rooms.ListRooms | server.js:86-112 | the listing holds exactly the rooms matching the name and capacity filters, each shown with its availability on the date when one is given, and is no longer than the table |
| Rooms.ListedOnce | server.js:99-110 | with unique room ids, no room id appears twice in the listing |
| Rooms.ListingAgreesWithLookup | server.js:86-121 | with unique room ids, every listed room is exactly what `GET /api/rooms/:id` returns for its id and the same date |
| Text.ContainsIffOccurs | server.js:90-92 | the name filter `LIKE %search%` holds iff the search text occurs in the name at some offset |
| Text.LowerChar | server.js:92 | an upper-case ASCII letter becomes the letter 32 code points above it, a lower-case letter; every other character is unchanged; the result is never upper-case |
| Text.LowerIgnoresCase | server.js:91-92 | an upper-case letter and its lower-case counterpart lower-case to the same character, that lower-case letter, so the name filter ignores ASCII case |
| Server.Database.UpdateRoom | server.js:343-365 | 403 exactly when the caller is not an administrator. Then 404 exactly for an unknown room. Then 400 exactly when the body supplies no field. Otherwise 200, and only that room changes, to the patched room: every column in the SET list holds the supplied value and every other column keeps its old value. Nothing changes on an error |
| Server.Database.ReplaceRoom | server.js:362 | the update keeps the room's id, so room ids stay unique |
| Rooms.BuildUpdate | server.js:350-358 | the seven checks push exactly `SuppliedAmong(p, 7)`, the supplied columns in check order |
| Rooms.SuppliedAmongMembers | server.js:352-358 | the first `k` checks push exactly the supplied columns among the first `k` |
| Rooms.SuppliedAmongOrdered | server.js:352-358 | the checks push their columns in strictly increasing check order, so no column twice |
| Rooms.AllChecksListSupplied | server.js:350-358 | after all checks the list holds every supplied column and nothing else, each once, in check order |
| Rooms.EmptyListIffNoFields | server.js:350-360 | the list is empty exactly when the body supplies none of the seven fields, the case answered with 400 |
| Rooms.Patched | server.js:352-362 | the update keeps the room's id; each supplied field gets its given value (with `x \|\| null` for image, address and features), each field not supplied keeps its value, and a body without fields leaves the room as it was |
| Rooms.UpdateSetsListedColumns | server.js:350-362 | exactly the columns the SET list names change to the given values; every column the list does not name keeps its value |
| Rooms.UpdateIsIdempotent | server.js:352-362 | repeating the same update gives the room that applying it once gives |
| Server.Database.ToggleFavorite | server.js:207-225 | 400 exactly when `userId` or `roomId` is missing, and nothing changes. Otherwise the pair is removed when present and inserted when absent, and `added` tells which |
| Feedback.Toggle | server.js:211-224 | the pair is in the result iff it was not in the set before, and every other pair is unchanged |
| Feedback.ToggleTwice | server.js:207-225 | two toggles of the same pair restore the original favourites |
| Server.Database.CreateReview | server.js:258-290 | 400 iff `userId` is missing. Then 404 iff the room or the user is unknown. Then 400 iff the rating is not in 1..5 or the comment is blank. Otherwise 201, and a review holding the trimmed comment and the next id is appended, and the counter advances by one. Nothing changes on an error |
| Server.Database.InsertReview | server.js:273-276 | appending a well-formed review with the next id keeps the reviews invariant |
| Feedback.RatingAccepted | server.js:268-269 | `!rate \|\| rate < 1 \|\| rate > 5` rejects exactly NaN, 0, the infinities and finite values outside 1..5 |
| Feedback.AcceptedReviewWellFormed | server.js:268-275 | a review built from an accepted rating and a non-blank trimmed comment has a rating in 1..5 and a non-empty, already trimmed comment |
| Feedback.AppendKeepsReviewsWellFormed | server.js:273-276 | appending a well-formed review with the next id keeps review ids positive, below the counter and every review well formed |
| Text.Trim | server.js:270-271 | the result neither starts nor ends with white space, and is empty exactly when the comment is white space only |
| Text.TrimEmptyIffBlank | server.js:270-271 | trimming both ends gives the empty string exactly for white space only |
| Text.TrimIsSlice | server.js:270 | the trimmed comment is a contiguous slice of the input with only white space outside it |
| Text.TrimIdempotent | server.js:270-275 | trimming a stored comment again changes nothing |

## Left out

- Express routing, the MySQL pool, `query`, `asyncHandler`, static files and the 500 error handler are not modelled. The handlers' database calls are operations on the in-memory tables.
- Concurrent requests are not modelled. Requests run one at a time. In the real server, the conflict check and the insert in `/api/rooms/:id/reserve` are not one transaction, so two concurrent requests can both pass the check.
- Caller identity is not derived from requests. `userId` and `adminId` are parameters, not read from `req.body || req.query`. Tokens are not modelled.
- The login token (`String(user.id)`) and the response bodies are not modelled. Passwords are compared as plain text, as the handler does.
- MySQL collation is not modelled. E-mail, date and time comparisons are exact string equality.
- `LIKE` wildcards are not modelled. A `%` or `_` typed into the search text is matched literally. Lower-casing covers ASCII letters only.
- The listing's `capacity` filter is `Option<int>`, not modelled through `Number(capacity)`. A non-numeric filter (NaN) is not modelled.
- `Number(capacity)`, `Number(price)`, `available ? 1 : 0` and `JSON.stringify(features)` in the room update are not modelled. The patch carries the already converted values. For `features`, an empty string stands for every falsy value.
- Review ratings are exact reals, not IEEE doubles. `String(comment || "")` for a comment that is not a string is not modelled.
- JavaScript falsy values other than the empty string and 0 (`false`, `null`, `undefined`) are not modelled. They are folded into these two encodings.
- `created_at`/`NOW()` timestamps and the ordering clauses of the listing queries are not modelled.
- The read-only endpoints other than the room listing and room lookup are not modelled: the reservation, favourite, review and user listings, reservation by id, user by id, and the admin user and reservation lists. They only format query results.
- Administrator room creation and room deletion are not modelled. Their effect on reservations depends on a schema that is not part of this model.
- `Server.Database.constructor` seeds the users and rooms directly. Loading the database is not part of the handlers.
- `Rooms.BuildUpdate` does not model the `params` object. The values bound to the SET clause are given by `Rooms.Patched`, which `UpdateRoom` stores.
