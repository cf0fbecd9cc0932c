# Goal tracker store and goal status state machine

A Dafny model of the data layer of a small Flask goal tracker (`app.py`).
Users register and log in; each user owns goals with a text, a status
(pending, completed, expired) and an optional deadline. Every route handler
issues SQL statements against two shared tables, `users` and `goals`. The
model keeps those tables as fields of one `Store` object: `goals` and `users`
are sequences of rows in insertion order, and `nextGoalId` / `nextUserId`
play the role of the auto-increment counters. Each route that changes the
tables is a method that runs the same statements in the same order. The
UPDATE and DELETE statements and the key-lookup SELECTs are loops over the
rows; each UPDATE and DELETE loop is proved equal to a function over the rows
(`Swept`, `Deleted`, `Updated`). The two INSERTs are appends in `Register`
and `AddGoal`. The listing and the completed count are pure functions
(`OwnedBy`, `CompletedCount`) over the swept table.

Files:

- `wrappers.dfy`: `Option` and `Result`.
- `goal_table.dfy` (module `GoalTable`): the row types, the table invariants,
  one function per UPDATE, DELETE and SELECT, and the lemmas about them; the
  INSERTs are appends.
- `goal_store.dfy` (module `GoalStore`): class `Store` with one method per
  UPDATE, DELETE and key-lookup SELECT, and one per route.

Modelling choices:

- Timestamps are whole minutes (`Time = int`); the clock is a parameter
  `now`. The two-hour shift of a completed goal is `CompletionOffset = 120`.
- A deadline is `Option<Time>`: the column allows NULL, and a NULL deadline
  never satisfies `deadline <= now`.
- The status column is the datatype `Status`; the application only ever
  writes `"pending"`, `"completed"` and `"expired"` into it. The status
  requested in `/update_status` stays a string, so an unknown word is
  modelled.
- The `UPDATE` at app.py:41 has no status filter, so completed goals expire
  too. Completing a goal moves its deadline to two hours after completion
  (app.py:167), so a completed goal turns expired two hours later
  (`CompletedGoalExpiresAfterOffset`).
- `update_status` flashes success whatever happened (app.py:178), and an
  update whose predicate matches no row changes nothing, so `UpdateStatus`
  returns no outcome.
- The schema only says NOT NULL (app.py:14, app.py:23); no route rejects an
  empty username or goal text, and neither does the model.
- User and goal ids are `nat`: they come from AUTOINCREMENT, and the
  `<int:goal_id>` route converter only accepts non-negative numbers.

## Model

| member | source | states |
|---|---|---|
| `GoalStore.Store.constructor` | app.py:11-28 | a fresh database has both tables empty and both id counters at 1, and satisfies the store invariant |
| `GoalStore.Store.SweepExpired` | app.py:39-42 | the goals table becomes `Swept(old goals, now)`; ids stay ordered and below the counter |
| `GoalTable.SweptRows` | app.py:41 | after the sweep every row whose deadline is at or before `now` is expired whatever its former status, completed included; every other row, and every id, owner, text and deadline, is as it was; the row count is kept |
| `GoalTable.SweptKeepsIds` | app.py:41 | the sweep keeps goal ids strictly increasing and below the counter |
| `GoalTable.SweepLaterSubsumes` | app.py:41 | a sweep at `now` after a sweep at an earlier time gives the same table as the sweep at `now` alone |
| `GoalTable.SweepIdempotent` | app.py:41 | sweeping twice at the same time gives the table of sweeping once |
| `GoalStore.Store.FindUser` | app.py:59-60 | returns the first user row with that username, or none |
| `GoalTable.UserNamedFinds` | app.py:83-86 | the username lookup finds a row exactly when the name is taken, and the row it finds carries that name |
| `GoalTable.UserNamedUnique` | app.py:59-62 | with unique usernames the lookup returns the one user of that name |
| `GoalTable.RegisteredKeepsUnique` | app.py:86-90 | inserting a name that is not taken keeps usernames pairwise distinct and user ids ordered |
| `GoalStore.Store.Register` | app.py:83-92 | a taken username fails with a duplicate error and leaves the users table and counter unchanged; otherwise exactly one row with the next id, that name and that hash is appended; usernames stay distinct |
| `GoalStore.Store.Login` | app.py:59-66 | succeeds exactly when a user of that name exists and the hash check accepts the password, returning that user's id and running the sweep; otherwise fails and changes nothing |
| `GoalStore.Store.ListGoals` | app.py:102-111 | runs the sweep first, then returns the user's goals and completed count read from the swept table |
| `GoalTable.OwnedByMembers` | app.py:106-107 | a goal is listed for `u` exactly when it is in the table and owned by `u`; no other user's goal appears |
| `GoalTable.OwnedBySwept` | app.py:104-107 | listing the swept table equals sweeping the user's listing: the sweep never moves goals between users |
| `GoalTable.ListedGoalsAreCurrent` | app.py:104-107 | every goal listed right after the sweep belongs to the user, and if its deadline is at or before `now` its status is expired |
| `GoalTable.CompletedCountOfListing` | app.py:110-111 | the completed count for `u` equals the number of completed goals in `u`'s listing, and never exceeds the listing's length |
| `GoalTable.SweptCompletedNotDue` | app.py:104-111 | right after a sweep, no goal with status completed has a deadline at or before `now` |
| `GoalStore.Store.AddGoal` | app.py:121-130 | a failed deadline parse inserts nothing (the model returns `InvalidDeadlineFormat` where the route raises); otherwise one pending row owned by `u` with the parsed deadline and a fresh id is appended, that id exceeds every earlier id, and existing rows are unchanged |
| `GoalTable.OwnedByAppend` | app.py:129 | a new goal appears at the end of its owner's listing and in no other user's listing |
| `GoalStore.Store.HasGoal` | app.py:143-144 | reports whether a row with that id owned by `u` exists |
| `GoalStore.Store.DeleteMatching` | app.py:150 | the goals table becomes `Deleted(old goals, id, u)`; ids stay ordered and below the counter |
| `GoalTable.DeletedMembers` | app.py:150 | a row survives the delete exactly when it was in the table and does not have that id and owner |
| `GoalTable.DeletedNoMatch` | app.py:172 | a delete whose predicate matches no row leaves the table unchanged |
| `GoalTable.OnlyOneMatch` | app.py:21 | with auto-increment ids, no row before or after a row with a given id and owner has that id and owner |
| `GoalTable.DeletedExactlyOne` | app.py:143-151 | with unique ids, deleting a matching row removes exactly that row and keeps every other row in order |
| `GoalTable.DeletedKeepsIds` | app.py:150 | the delete keeps ids ordered and below the counter |
| `GoalTable.DeleteIsolatesOwners` | app.py:172 | a delete issued as `u` leaves every other user's listing unchanged |
| `GoalStore.Store.RemoveGoal` | app.py:141-151 | without a row of that id owned by `u` it fails and the table is unchanged; otherwise it succeeds and the new table is the old one with exactly that row removed |
| `GoalStore.Store.UpdateMatching` | app.py:165-175 | the goals table becomes `Updated(old goals, id, u, c)`; ids stay ordered and below the counter |
| `GoalTable.UpdatedRows` | app.py:164-176 | an update touches only the row with that id owned by `u`: completing sets status completed and deadline `now` + 2 hours, reopening sets status pending and keeps the deadline; id, owner and text never change, and every other row is unchanged |
| `GoalTable.UpdatedKeepsIds` | app.py:165-175 | the update keeps goal ids strictly increasing and below the counter |
| `GoalTable.UpdatedNoMatch` | app.py:165-175 | an update whose predicate matches no row leaves the table unchanged |
| `GoalTable.UpdateIsolatesOwners` | app.py:165-175 | an update issued as `u` leaves every other user's listing unchanged |
| `GoalStore.Store.UpdateStatus` | app.py:162-176 | "completed" applies the completion update, "removed" the delete, "pending" the reopen update, each on the row of that id owned by `u`; any other status string leaves the table unchanged |
| `GoalTable.ForeignStatusRequestChangesNothing` | app.py:164-176 | a status request on a goal that is missing or owned by someone else leaves the table unchanged, whatever the status |
| `GoalTable.CompletedGoalExpiresAfterOffset` | app.py:167 | a goal completed at `at` shows as expired after a sweep at any `now` from `at` + 2 hours on, and as completed before that |
| `GoalTable.ReopenedPastDeadlineExpiresAgain` | app.py:175 | reopening a goal whose deadline has passed is undone by the next sweep: it is expired again |

## Left out

- Flask routing, the session, flash messages, templates and redirects: web-framework plumbing. The session's user id is the `u` parameter of each method, and the login-required checks at the top of each route are not modelled.
- The sqlite3 connection, cursor, commits and schema creation: the tables are modelled directly. The shared connection across threads is a concurrency concern and is not modelled; each method runs atomically.
- Password hashing and verification (`sha256_crypt`): foreign cryptographic calls. `Register` takes the computed hash; `Login` takes the verification as a function parameter.
- The wall clock (`datetime.now()` and SQLite's `datetime("now","localtime","+2 hours")`): `now` is a parameter, in minutes.
- CompletedGoalExpiresAfterOffset: times are whole minutes, while SQLite stores the completion deadline to the second (app.py:167) and the sweep compares against `datetime.now()`, which carries microseconds (app.py:40). The completed-to-expired flip is therefore exact only to the minute: a goal completed at 10:00:30 is still completed in the source at a sweep at 12:00:10, but both instants fall in minutes 600 and 720 of the model, where it is already expired.
- `datetime.strptime` and its format: `AddGoal` takes the parse result as `Option<Time>`, with `None` when parsing raises.
- SQLite's text comparison of datetime strings: modelled as integer comparison on minutes.
- The startup count of users and its console message: it changes no table.
- The foreign-key declaration on `goals.user_id`: SQLite does not enforce it by default, and no route relies on it.
- AddGoal: `add_goal` does not catch the `ValueError` that `strptime` raises on a malformed date or time (app.py:127), so the request ends with an unhandled exception and no flash or redirect. The model turns that exception into `Err(InvalidDeadlineFormat)`; the table effect, nothing inserted, is the same.
