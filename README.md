# LookIn attendance backend, modelled in Dafny

LookIn is a face-recognition attendance application. Its backend keeps two
tables in a hosted document store: `users` (one row per registration, with the
face descriptor captured at sign-up) and `attendance` (one row per user per
day). This project models the backend's mutations and queries over in-memory
tables and proves what they guarantee.

- `db.dfy`, module `Db`: document ids, the `Option` returned by `.first()`,
  and `Reverse`, which is `.order("desc")` over a table kept in insertion order.
- `users.dfy`, module `Users`: the `User` row, the `UsersTable` class with
  `RegisterUser`, and the queries `AllUsers`, `UserByClerkId` and
  `FaceDescriptors`.
- `attendance.dfy`, module `Attendance`: the `Record` row, the pure function
  `Mark` that specifies `markAttendance`, the `AttendanceTable` class whose
  method `MarkAttendance` is proved equal to `Mark` and keeps the table's
  invariant (ids in creation order, at most one row per `(userId, date)`), the
  queries `TodayAttendance` and `AllAttendance`, and `UserStatistics`.

Modelling decisions:

- A table is a `seq` of rows in insertion order plus a counter that hands out
  fresh ids. Ids therefore increase with creation time, and "newest first"
  means strictly decreasing ids.
- `Date.now()` (the `createdAt` field) is the parameter `now`. The current day
  in `getUserStatistics` (`new Date().toISOString()`) is the parameter `today`.
- A face descriptor is a `seq<real>` that the backend stores and returns
  unchanged; no arithmetic is done on it.
- `Math.round(p / u * 100)` is modelled exactly as the nearest integer with
  halves rounded up, `(200p + u) div 2u`.
- Calls run one after another. The store's transactional isolation is not
  modelled.
- `presentToday` counts the rows dated today, not distinct users, and
  `absentToday` is `users.length - presentToday` with no clamping at zero
  (convex/attendance.ts:78-79). `PresentCountsDistinctUsers` shows the two counts agree
  whenever the table has at most one row per user and day, and that invariant
  is kept by `MarkAttendance`. `AbsentCanBeNegative` shows the absent count
  going below zero.

## Model

| member | source | states |
|---|---|---|
| `Db.Reverse` | convex/attendance.ts:48 | `order("desc")`: same length and elements, position i holds the (n-1-i)-th inserted row, same multiset |
| `Attendance.FirstWithKey` | convex/attendance.ts:17-21 | the lookup finds nothing exactly when no row has `(userId, date)`; otherwise it returns the oldest such row |
| `Attendance.Mark` | convex/attendance.ts:17-37 | if a row for `(userId, date)` exists: table and counter unchanged, result `already_marked` with the id of such a row; otherwise exactly one row with the given fields is appended under the counter's id, result `marked` with that id |
| `Attendance.FirstWithKeyAppend` | convex/attendance.ts:17-21 | after an append the lookup still returns an older match; otherwise it returns the new row exactly when it has the key |
| `Attendance.UniqueKeysAtMostOne` | convex/attendance.ts:17-37 | a table with unique keys holds at most one row per `(userId, date)` |
| `Attendance.MarkedIdIsFresh` | convex/attendance.ts:28-37 | a `marked` id differs from every earlier row's id, and all ids stay below the counter |
| `Attendance.MarkPreservesInvariant` | convex/attendance.ts:17-37 | creation order, ids below the counter, and at most one row per `(userId, date)` survive every call |
| `Attendance.MarkIdempotent` | convex/attendance.ts:17-37 | two calls with the same user and day, whatever names or times: the first is `marked` exactly when no row existed, the second is `already_marked` with the first id and changes nothing, and exactly one row for the key remains |
| `Attendance.AttendanceTable.constructor` | convex/schema.ts:13-20 | an empty, valid `attendance` table |
| `Attendance.AttendanceTable.MarkAttendance` | convex/attendance.ts:6-39 | the new rows, counter and result are those of `Mark` on the old table, and the table invariant still holds |
| `Attendance.DatedOn` | convex/attendance.ts:73 | `records.filter(date === d)`: exactly the rows dated d, in creation order |
| `Attendance.DatedOnMultiset` | convex/attendance.ts:73 | the filter holds each row dated d exactly as many times as the table does, and no other row |
| `Attendance.TodayAttendance` | convex/attendance.ts:42-53 | exactly the rows dated d, one per row of the filter, newest first |
| `Attendance.AllAttendance` | convex/attendance.ts:56-65 | every row exactly once (same multiset), in reverse insertion order, newest first |
| `Attendance.NewestFirstDetermined` | convex/attendance.ts:45-49 | two newest-first lists with the same members are equal, so the contract of `TodayAttendance` determines its result |
| `Attendance.RoundedPercent` | convex/attendance.ts:80 | the result is 100·part/whole rounded to the nearest integer, halves up, and lies in 0..100 when part ≤ whole |
| `Attendance.UserStatistics` | convex/attendance.ts:68-83 | total is the user count, present is the number of today's rows, present + absent = total with no clamping, rate 0 with no users and otherwise the rounded percentage, rate in 0..100 when present ≤ total |
| `Attendance.PresentCountsDistinctUsers` | convex/attendance.ts:73-78 | with at most one row per user and day, the present count equals the number of distinct users with a row today |
| `Attendance.AbsentCanBeNegative` | convex/attendance.ts:79 | one row today and no users gives an absent count of -1 |
| `Users.UsersTable.constructor` | convex/schema.ts:6-12 | an empty, valid `users` table |
| `Users.UsersTable.RegisterUser` | convex/users.ts:6-24 | exactly one row with the given fields is appended under a fresh id larger than every earlier id; earlier rows are unchanged |
| `Users.AllUsers` | convex/users.ts:27-32 | every row exactly once, in insertion order |
| `Users.UserByClerkId` | convex/users.ts:35-44 | nothing exactly when no row has the `userId`; otherwise the oldest row that has it |
| `Users.FaceDescriptors` | convex/users.ts:47-57 | one entry per row, same order, carrying the row's id, name, `personId` and descriptor unchanged |
| `Users.UserByClerkIdAppend` | convex/users.ts:38-43 | after an append the lookup still returns an older match; otherwise the new row exactly when its `userId` matches |
| `Users.LookupAfterRegister` | convex/users.ts:14-20 | registering a `userId` not yet present makes the lookup return the new row |
| `Users.UserIdCountAppend` | convex/users.ts:14-20 | no duplicate check: every registration adds exactly one row with its `userId` to the count, for every table |
| `Users.RegisterTwiceKeepsBoth` | convex/users.ts:14-20 | registering one `userId` twice leaves two rows with it, and the lookup returns the first |
| `Users.FaceDescriptorsAppend` | convex/users.ts:49-56 | after a registration the gallery is the old gallery plus the new row's entry |
| `Users.FaceDescriptorIdsDistinct` | convex/users.ts:49-56 | over a table in creation order the gallery's ids are pairwise distinct |

## Left out

- The face-detection front end (camera access, model loading, the detection
  polling loop and drawing): it is built from browser and library calls.
- Matching a live descriptor against the gallery with a distance threshold:
  the repository defines no such routine, and its recognition callback is never
  invoked.
- The UI pages (attendance list with random ids, registration form, dashboard,
  navigation, sign-in and sign-up) and the role checks: rendering, routing and
  identity-provider calls.
- Client construction for the backend: no behaviour.
- Transactional isolation of the look-up-then-insert in `markAttendance`: a
  concurrency property of the hosted store; calls are modelled as sequential.
- Wall-clock reads: replaced by the parameters `now` and `today`.
- Attendance.RoundedPercent: exact rational rounding; the floating-point
  rounding of `p / u * 100` in JavaScript is not modelled, and the two differ
  at some exact halves: in IEEE double arithmetic 23 / 40 * 100 is slightly
  below 57.5 and 29 / 200 * 100 slightly below 14.5, so JavaScript gives 57 and
  14 where the model gives 58 and 15.
- Document ids are natural numbers from a counter rather than the store's
  opaque id strings; only their freshness and creation order are relied on.
- Argument validation by the store's schema (`v.string()`, `v.array(v.number())`):
  the model's types stand for it.
