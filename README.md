# xiaojilu: the record tables, in Dafny

xiaojilu is a small family service for logging a baby's day. Its server keeps
two SQLite tables behind a REST API:

- **instant records** (`instant_records`): point-in-time events such as a
  diaper change. They can be inserted, listed latest first, and deleted.
- **duration records** (`duration_records`): events with a start and an end,
  such as sunbathing. A record is *open* while its `ended_at` is the empty
  string. `start` opens a record. `end` closes it exactly once, and any
  family member may end it. `end` stores the elapsed time in minutes,
  rounded to one decimal place. `update` may edit the type, the label and
  the note, and nothing else. Open records are listed on the home page.

The model keeps each table as a class. The class holds a map from id to row
and the last id that AUTOINCREMENT handed out; ids are never reused. The
INSERT, UPDATE and DELETE handlers are methods that update the map in place.
Each method of `DurationTable` is proved to follow a pure step function of
the table (`StartStep`, `EndStep`, `UpdateStep`, `DeleteStep`). Each method
of `DurationTable` also keeps the table invariant `Valid` (the predicate
`WellFormed` of its contents):
- every row is stored under its own id, and ids lie within 1..last id;
- an open row has an empty `ended_by` and duration 0;
- a closed row's duration is its elapsed time, rounded.

`InstantTable`'s methods state the new map and counter in their `ensures`;
its `Valid` is the id discipline alone (`Query.Indexed`, the first of the
three points above).

The list endpoints are functions of the table: scan in id order, keep the
rows the WHERE clause accepts, sort by the timestamp descending, apply the
LIMIT. Their contracts characterise the result up to the order of equal
timestamps:
- only matching rows, each once, latest first;
- at most `limit` rows;
- no matching row that is left out is later than a row that is returned;
- nothing is left out when there is no limit or room is left.

Modelling choices:
- Timestamps are whole milliseconds; parsing ISO-8601 text is outside the
  model. An open row's `ended_at` is `None`.
- `duration_minutes` is kept as whole tenths of a minute:
  `Math.round(ms / 60000 * 10)` becomes `(ms + 3000) / 6000` with floor
  division. This is round-half-up, as `Math.round` does, also for negative
  values.
- The clock (`new Date()`) is a parameter `now`.
- Request fields that may be absent are `Option`s. An absent NOT NULL column
  on INSERT binds NULL. SQLite then refuses the row. The handler does not
  catch that exception, so the server answers 500 and nothing is inserted.
  The model returns `MissingField`.
- Both list endpoints default to 20 rows: the defaults are at
  `server.js:80` and `server.js:152`.
- A negative LIMIT means no limit, as in SQLite.

Files: `outcomes.dfy` (replies and errors), `rounding.dfy` (the duration
unit), `query.dfy` (scan, filter, sort, limit), `instant_log.dfy`,
`duration_log.dfy` (records, step functions, queries, the table class),
`lifecycle.dfy` (properties of the duration lifecycle).

## Model

| member | source | states |
|---|---|---|
| Outcomes.Status | server.js:118-144 | NotFound answers 404, AlreadyEnded and NothingToUpdate answer 400, and a NOT NULL violation (an uncaught exception) answers 500 |
| Outcomes.Message | server.js:118-144 | the handler's JSON `error` text for NotFound, AlreadyEnded and NothingToUpdate; a NOT NULL violation has none, since no handler answers it |
| Rounding.RoundTenths | server.js:125-131 | the stored duration in tenths lies within half a tenth of a minute of the elapsed time, lower bound included (round half up) |
| Rounding.RoundTenthsUnique | server.js:131 | no other whole number of tenths satisfies that bound, so the rounding is determined |
| Rounding.RoundTenthsMonotonic | server.js:125-131 | a later end never gives a shorter duration |
| Rounding.RoundTenthsSign | server.js:125-131 | equal instants give 0; an end at or after the start gives 0 or more; an end more than half a tenth before the start gives a negative duration |
| Rounding.RoundTenthsExact | server.js:131 | an elapsed time of a whole number of tenths is stored exactly |
| Query.ScanCounts | server.js:164 | a scan of the table meets every row exactly once and nothing else |
| Query.Filter | server.js:153-161 | the WHERE clause keeps exactly the accepted rows, with their multiplicity |
| Query.SortDesc | server.js:162 | ORDER BY … DESC returns a permutation of its input, latest first |
| Query.Take | server.js:162-163 | LIMIT returns a prefix: `limit` rows when there are more, all rows otherwise, including for a negative limit |
| Query.Select | server.js:151-166 | a listing holds only accepted rows, each once, latest first, at most `limit`; a left-out accepted row is never later than a returned one; none is left out without a limit or when room is left |
| InstantLog.MissingColumn | server.js:21-26 | an insert fails exactly when event_type, event_label or recorded_by is absent; the first absent one in column order is reported |
| InstantLog.ListInstants | server.js:79-91 | `GET /api/instant`: only rows of the requested type (all when the type is empty or absent), each once, by recorded_at descending, at most `limit` (default 20), top-`limit` by recorded_at |
| InstantLog.InstantTable.constructor | server.js:21-29 | a new table is empty and has handed out no ids |
| InstantLog.InstantTable.Insert | server.js:68-76 | a missing NOT NULL column changes nothing; otherwise one row under a fresh id above every earlier id, with recorded_at defaulting to the clock and note to the empty string |
| InstantLog.InstantTable.Delete | server.js:94-97 | removes exactly the row with that id, if any, and always answers success |
| DurationLog.MissingColumn | server.js:32-36 | a start fails exactly when event_type, event_label or started_by is absent; the first absent one in column order is reported |
| DurationLog.ListDurations | server.js:151-166 | `GET /api/duration`: only rows of the requested type, only open rows when active_only is "true", each once, by started_at descending, at most `limit` (default 20), top-`limit` by started_at |
| DurationLog.Active | server.js:175-182 | `GET /api/active`: exactly the open rows, each once, by started_at descending, with no limit |
| DurationLog.SetClause | server.js:139-144 | the SET clause is empty exactly when none of event_type, event_label and note is supplied |
| DurationLog.SetClauseEdits | server.js:139-146 | running the SET clause replaces exactly the supplied columns among event_type, event_label and note |
| DurationLog.UpdateKeepsWellFormed | server.js:137-148 | an edit keeps the table invariant: it touches no id, start, end or duration |
| DurationLog.DurationTable.constructor | server.js:32-43 | a new table is empty, satisfies the table invariant and has handed out no ids |
| DurationLog.DurationTable.Start | server.js:102-110 | follows `StartStep` and keeps the table invariant |
| DurationLog.DurationTable.End | server.js:113-134 | follows `EndStep` (read the row, refuse a missing or ended row, write ended_by, ended_at, duration) and keeps the table invariant |
| DurationLog.DurationTable.Update | server.js:137-148 | builds the SET clause from the supplied columns, refuses an empty one, follows `UpdateStep` and keeps the table invariant |
| DurationLog.DurationTable.Delete | server.js:169-172 | follows `DeleteStep` and keeps the table invariant |
| DurationLifecycle.StartOpensFreshRecord | server.js:102-110 | start fails only on a missing NOT NULL column, then changing nothing; otherwise it adds one open row under the id one above the last id handed out (so above every earlier id, deleted ones included), with ended_at and ended_by empty, duration 0, note defaulting to "" and started_at to the clock; no other row changes |
| DurationLifecycle.DeletedIdIsNotReused | server.js:33 | after deleting a row, a successful start answers a different id: AUTOINCREMENT does not reissue ids |
| DurationLifecycle.StartIdsIncrease | server.js:105-109 | two successful starts hand out increasing ids, the second not already in the table |
| DurationLifecycle.EndUnknownIsNotFound | server.js:117-120 | end on an unknown id answers NotFound and leaves the table unchanged |
| DurationLifecycle.EndClosedIsRefused | server.js:121-123 | end on an ended row answers AlreadyEnded and leaves the table, and so that row's ended_at, ended_by and duration, unchanged |
| DurationLifecycle.EndOpenCloses | server.js:113-134 | end on an open row sets ended_by, ended_at (the clock by default) and the rounded duration, answers with the stored duration, and changes no other column, row or id counter |
| DurationLifecycle.EndOnlyOnce | server.js:121-131 | after one successful end of a row, every later end of it is refused and changes nothing |
| DurationLifecycle.EndAtStartIsZero | server.js:125-133 | ending at the start instant answers a duration of 0 |
| DurationLifecycle.EndBeforeStartIsNegative | server.js:125-133 | an end given more than half a tenth of a minute (3 s) before the start is not refused and answers a negative duration |
| DurationLifecycle.UpdateWithNothingIsRefused | server.js:144 | an update with none of the three editable columns is refused and changes nothing |
| DurationLifecycle.UpdateEditsOnlyGivenColumns | server.js:137-148 | otherwise update succeeds; it replaces exactly the supplied columns, keeps start, end, duration and open status, changes no other row, and changes nothing for an unknown id |
| DurationLifecycle.DeleteRemovesOnlyThatRow | server.js:169-172 | delete removes only the row with that id, succeeds when there is none, and keeps the id counter |
| DurationLifecycle.StartedIsActive | server.js:175-182 | a row that start opened is in the active list |
| DurationLifecycle.EndedIsNotActive | server.js:175-182 | after a successful end the row is no longer active, and every other active row still is |
| DurationLifecycle.ActiveIsActiveOnlyList | server.js:159-160 | the active list and the duration list with active_only=true, no type and no limit hold the same rows |
| DurationLifecycle.SunbathExample | server.js:102-134 | a sunbath from 08:00:00 to 08:15:30 gets id 1 on an empty table and lasts 155 tenths (15.5 minutes); it is the only active row before the end, and none is active after |

## Left out

- Password checking (`auth`, `POST /api/auth`): a string comparison with an environment variable. The model treats every call as authenticated.
- `GET /api/today`: it compares stored timestamp text with the local calendar day. The model has no text timestamps or calendar.
- Express routing, CORS, static files, the single-page fallback, `app.listen`, the data directory and the SQLite connection: framework and storage plumbing. The tables are in memory.
- `created_at`: filled by SQLite from the local clock and returned by the `SELECT *` of every listing. This column is left out of the modelled rows.
- Timestamps are instants in milliseconds, not ISO-8601 text. SQLite orders `started_at` and `recorded_at` as text. That order agrees with time order only when all timestamps share one ISO format. Unparseable timestamps (which make the duration NaN) are not modelled.
- Floating point: the duration is computed in exact integer tenths. The source computes `Math.round(ms / 1000 / 60 * 10)` in doubles; the integer formula is meant to agree with it on realistic elapsed times, and the double representation itself (its precision on elapsed times far beyond any real event) is not modelled.
- DurationLog.ListDurations: a `limit` that is not an integer (NaN, fractional) is not modelled; the model takes `Number(limit)` as an integer. The same holds for InstantLog.ListInstants.
- DurationLog.DurationTable.End: a request without `ended_by` stores SQL NULL; the model takes `ended_by` as a string.
- DurationLog.DurationTable.Update: a column given as JSON `null` is an assignment of NULL, which SQLite refuses for event_type and event_label. The model treats fields only as absent or present with a string value.
- Non-numeric ids in the URL match no row. The model takes ids as integers, and an unknown integer id behaves the same way.
- Concurrency between requests, and the exhaustion of the 64-bit id space.
- Tenants, image attachments and the admin console are not part of this model; they are not present in `server.js`.
