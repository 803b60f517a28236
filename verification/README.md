# Time-travel key-value store, modelled in Dafny

This project models the core of a small time-travel key-value store. Callers
write values tagged with a business timestamp and ask "what was the value of
key K as of time T". Every call also leaves an audit record saying who did
what to which key, with which result, and when.

The store has three parts. Each is a Dafny module that follows the Python class of the same name in `app.py`.

- `EventLogDB` (`event_log.dfy`) is the append-only event table. Each record
  is `{id, key, value, timestamp}`. `Create` appends one record, using the
  current counter as its id. `Read` returns the records of a key, optionally
  only those whose timestamp is not after a given time, in table order.
- `AuditLogDB` (`audit_log.dfy`) is the append-only audit table. Each record
  is `{user, action, key, value, timestamp}`. `Log` appends one record.
- `TimeMapDBWithAudit` (`time_map.dfy`) is the facade. `Set` creates a
  record, overwrites its business timestamp when the caller gives one, and
  audits the value. `Get` reads the key's records as of T, picks one, audits
  the answer (None included) and returns it. `Tombstone` creates a
  tombstone record stamped with the clock and audits the action with no
  value.

The point-in-time choice that `get` makes is in `PointInTime`
(`point_in_time.dfy`). Among the qualifying records it takes the one with
the largest business timestamp. On a tie it takes the earliest-inserted
record. The source gets this by sorting with a stable sort in reverse and
taking the first element. The model computes it with an explicit linear
reduction, `LatestIndex`. It keeps the stable descending sort, `SortDesc`,
as an independent reference definition, and proves that the sort's head is
the record the reduction picks. `TimeMapProperties` (`properties.dfy`) holds
the cross-call properties. `History` (`history.dfy`) runs sequences of calls
and proves the audit-count and append-only invariants. `Scenarios`
(`scenarios.dfy`) restates the call sequences of the repository's test routines as lemmas.

Modelling choices:

- Timestamps are integers, and the wall clock is an explicit `now` argument
  of every operation. `Set` and `Tombstone` stamp both the event (when no
  business time is given) and the audit record with that `now`.
- Values are `Payload(n) | Tombstoned`. The source stores the string
  `"TOMBSTONED"` as its marker. There, a caller who sets that string cannot
  be told apart from a tombstone. The tagged value rules this out.
- A missing value is `None` of the model's `Option`, as in the source.
- The source's `if time:` and `if timestamp:` tests become `Option` arguments.
  A `datetime` object is always truthy and an ISO string is never empty, so
  `Some`/`None` covers both branches.
- The user is reduced to the name the audit table records.
- Both tables are immutable sequences. Each operation returns the new
  `Store`, and `Get` also returns its answer (`GetResult`).

The source has no error results. `create` and `log` append to in-memory
lists, and the `try`/`except` blocks of `set`, `get` and `tombstone`
(app.py:51-57, 60-66, 69-73) re-raise whatever they catch unchanged. So the
model has no error results either. The exceptions a badly typed argument can
raise are outside the model's typed signatures (see "## Left out"). A `get`
that finds nothing returns `None`. The tie-break follows the code. When two
records of a key share the winning business timestamp, the earlier-inserted
one is returned, so a second write at the same business time is never seen
(`SameTimeWriteShadowed`). Two behaviours of the source are deliberately not
reproduced, the stored `"TOMBSTONED"` string and the stored `None` value;
"## Left out" names both.

## Model

| member | source | states |
|---|---|---|
| EventLogDB.Empty | app.py:10-12 | a new event table is empty and its counter is 0, so ids equal positions |
| EventLogDB.Create | app.py:14-22 | appends exactly one record with the given key, value and clock time, whose id is the old counter; earlier records are unchanged; the counter goes up by one; ids stay equal to positions and strictly increasing |
| EventLogDB.Read | app.py:24-27 | a record is in the answer exactly when it is in the table, has the key and, when a time is given, a timestamp not after it; the answer is no longer than the table |
| EventLogDB.ReadKeepsOrder | app.py:24-27 | when ids increase along the table they increase along the answer, so the answer is in insertion order |
| EventLogDB.ReadAppend | app.py:24-27 | helper: one step of the filter, unfolded for appends; reading a table with one more record gives the old answer, plus that record at the end exactly when it qualifies |
| EventLogDB.ValidIdsIncreasing | app.py:17-22 | helper: when ids equal positions they strictly increase along the table |
| AuditLogDB.Log | app.py:34-42 | appends exactly one record with the caller's name, action, key, value and clock time; earlier records are unchanged |
| PointInTime.LatestIndex | app.py:62 | finds nothing exactly for an empty list; otherwise picks a record with a maximal timestamp, and no earlier record has that timestamp |
| PointInTime.LatestIndexAppend | app.py:62 | helper: one step of the reduction, unfolded for appends: a record appended last replaces the current choice exactly when its timestamp is strictly larger, so ties keep the earlier record |
| PointInTime.LatestValue | app.py:62 | None exactly for an empty list; otherwise the value of the record the selection rule names |
| PointInTime.LatestUnique | app.py:62 | the selection rule names at most one position, so the choice is deterministic |
| PointInTime.LatestAsOfUnique | app.py:62 | at most one table position is the latest qualifying record for a query, so the answer is deterministic |
| PointInTime.LatestOfRead | app.py:61-62 | reading then reducing finds nothing exactly when no record of the whole table qualifies, and otherwise picks the table record of maximal timestamp that is earliest among ties |
| PointInTime.SelectsStepSkip | app.py:61-62 | appending a record the query does not select keeps the read-then-reduce answer equal to the selection rule's choice over the table |
| PointInTime.BeatsAll | app.py:61-62 | a qualifying record that beats the current choice, or arrives when there is none, is later than every qualifying record already in the table |
| PointInTime.SelectsStepNew | app.py:61-62 | appending a qualifying record later than every qualifying one makes the read-then-reduce answer that record, which is the selection rule's choice over the table |
| PointInTime.SelectsStepKeep | app.py:61-62 | appending a qualifying record that does not beat the current choice keeps the read-then-reduce answer equal to the selection rule's choice over the table |
| PointInTime.LatestAsOfKept | app.py:61-62 | appending a record that does not beat the current choice keeps that choice |
| PointInTime.LatestAsOfNew | app.py:61-62 | appending a qualifying record later than every qualifying one makes it the choice |
| PointInTime.LatestValueSameFact | app.py:62 | replacing the last record by one with the same timestamp and value does not change the choice |
| PointInTime.LatestValueIgnoresIds | app.py:62 | two lists that agree position by position on timestamps and values give the same choice, whatever their ids |
| PointInTime.LatestValueSwap | app.py:62 | two records with different timestamps are chosen the same way whichever was appended first |
| PointInTime.InsertDesc | app.py:62 | inserting into a descending list keeps it descending and adds exactly the new record; the new record comes first when the head is no later than it |
| PointInTime.InsertDescPosition | app.py:62 | the new record is placed right after the records strictly later than it and before all others, so it goes ahead of every record with an equal timestamp |
| PointInTime.SortDesc | app.py:62 | the reverse sort by timestamp yields a descending permutation of its input |
| PointInTime.SortHeadIsLatest | app.py:62 | the head of the stable descending sort has a maximal timestamp and no earlier record ties it |
| PointInTime.SortedFirstIsReduction | app.py:62 | the first element of the stable descending sort is the record the linear reduction picks |
| TimeMapDBWithAudit.Init | app.py:46-48 | a new store has two empty tables and ids equal to positions |
| TimeMapDBWithAudit.Set | app.py:50-57 | appends exactly one event with the value, whose business timestamp is the given time if any and the clock time otherwise; appends exactly one "set" audit record carrying the value; keeps ids equal to positions |
| TimeMapDBWithAudit.Get | app.py:59-66 | leaves the event table unchanged; answers None exactly when no record of the key has a timestamp not after T; otherwise answers the value of the latest such record, earliest-inserted on a tie; appends exactly one "get" audit record carrying the answer |
| TimeMapDBWithAudit.Tombstone | app.py:68-73 | appends exactly one tombstone event stamped with the clock time and exactly one "tombstone" audit record with no value; keeps ids equal to positions |
| TimeMapProperties.GetPrefersSmallestId | app.py:62 | on a store whose ids are positions, the answer comes from a qualifying record of maximal timestamp whose id is the smallest among those sharing that timestamp |
| TimeMapProperties.GetIsRepeatable | app.py:59-64 | repeating an identical get after a get gives the same answer |
| TimeMapProperties.AppendInvisible | app.py:61-62 | appending a record a query does not select leaves its answer unchanged |
| TimeMapProperties.SetInvisibleBefore | app.py:50-64 | a set to another key, or at a business time after T, does not change what a get as of T answers |
| TimeMapProperties.TombstoneInvisibleBefore | app.py:59-73 | a tombstone of another key, or at a clock time after T, does not change what a get as of T answers |
| TimeMapProperties.ReadAppendTwo | app.py:24-27 | reading a table extended by two records gives the old answer followed by those of the two that qualify, in order |
| TimeMapProperties.ReadLatestCommute | app.py:61-62 | the answer over a table extended by two records does not depend on their order unless they share key and timestamp |
| TimeMapProperties.SetsCommute | app.py:50-64 | two sets to different keys or at different business times leave every later get with the same answer in either call order |
| TimeMapProperties.AppendSeen | app.py:61-62 | a newly appended qualifying record is the answer when no older record of its key lies between its timestamp and T |
| TimeMapProperties.SameTimeWriteShadowed | app.py:50-64 | of two sets of one key at the same business time t, a get as of T ≥ t returns the first value, provided no older record of the key has a timestamp in [t, T]: the earlier-inserted record wins the tie |
| TimeMapProperties.SetThenGet | app.py:50-64 | after set(k, v, t), a get of k as of any T at or after t returns v, provided no older record of k has a timestamp in [t, T] |
| TimeMapProperties.TombstoneThenGet | app.py:59-73 | after tombstone(k) at clock time n, a get of k as of any T at or after n returns the tombstone marker, provided no older record of k has a timestamp in [n, T] |
| TimeMapProperties.SetAfterTombstone | app.py:50-73 | a set after a tombstone, at a later business time, makes later gets return the new value again |
| History.Apply | app.py:50-73 | each call appends exactly one audit record reporting its action, user, key, clock time and value, and one event record exactly when it is a write |
| History.RunAuditTrail | app.py:50-73 | after N calls the audit table has grown by exactly N records, the i-th new one reporting the i-th call, and older records are unchanged |
| History.RunEventLog | app.py:14-22 | after a run the old event records are unchanged and exactly one record per write follows them; ids stay equal to positions |
| History.Reachable | app.py:46-73 | every store built from a new one by calls has ids equal to positions, one audit record per call and one event record per write |
| Scenarios.SessionSetGet | app.py:83-88 | a set at 10 then a get at 11 returns the value, with two audit records |
| Scenarios.SessionTombstoneGet | app.py:91-93 | a tombstone then a get returns the tombstone marker and adds two audit records (four in all, see AuditedSession) |
| Scenarios.SessionUntombstone | app.py:96-97 | a set after the tombstone makes the next get return the new value |
| Scenarios.SessionTombstoneAgain | app.py:100-101 | tombstoning again makes the next get return the marker |
| Scenarios.AuditedSession | app.py:76-101 | the whole eight-call session: each get sees the latest write and the audit table holds one record per call |
| Scenarios.PostdatedWrite | app.py:161-176 | a write postdated to 22 is invisible to a get as of 21, which still sees the earlier value, and visible to a get as of 23 |
| Scenarios.GetOnEmptyStore | app.py:59-64 | a get on a new store returns None and leaves one audit record with no value |

## Left out

- The wall clock (`datetime.utcnow()`) is the `now` argument. `set` and `tombstone` read the clock twice, once in `create` for the event (app.py:15) and once in `log` for the audit record (app.py:35). The model uses one reading for both. `get` takes its query time from the caller (app.py:59, 61) and reads the clock only once, in `log`.
- ISO-8601 strings and their text comparison are not modelled. Timestamps are integers ordered by the instant they denote. The strings agree with that order for the naive UTC datetimes `utcnow()` produces and for naive caller times. A timezone-aware `time` given to `set` or `get` becomes a string with a `+HH:MM` suffix (app.py:54, 61), and such strings compare by their text, not by instant. The model does not reproduce that ordering.
- TimeMapDBWithAudit.Set: a caller cannot store the string `"TOMBSTONED"` as a payload. In the source that write would read back as a tombstone. The tagged value type excludes it.
- The `try`/`except` blocks that re-raise every exception unchanged carry no behaviour.
- Exceptions raised part-way through an operation are not modelled, because the typed arguments exclude them. In `set`, `time.isoformat()` (app.py:54) runs after `create` has appended (app.py:52). So a truthy `time` with no `isoformat` method (a string or a number) raises after an event was stored, and no audit record is written. A `datetime.date` or `datetime.time` object is truthy and has `isoformat`, so nothing is raised and it is stored as its ISO text (for example "2024-01-01"). The integer model does not reproduce how such text orders against full timestamps. Likewise, `user.name` (app.py:37) raises for a user object without a name, after `set` or `tombstone` has appended its event. `Option<Time>` and the `string` user name rule out both partial commits.
- `TimeMapPandas` is a second backing over pandas data frames. It has a different, unstable sort and different audit timestamps.
- TimeMapDBWithAudit.Get: a stored Python `None` value is not modelled. In the source, `set(user, k, None)` stores `None`, and a later `get` returns `None` (app.py:62-64). That answer cannot be told apart from "no record qualifies". `Set` takes an integer payload, so `Get`'s "None exactly when no record qualifies" holds in the model but not for that source input.
- The `User` class is reduced to its name.
- `display_tables`, the printing demo and the test routines are harnesses. Their assertions are restated as lemmas in `Scenarios`.
- PointInTime.SortDesc: only the head of the sort is proved to match the stable reverse sort's first element, which is all that `get` uses. Stability of the whole sorted list is not stated.
