/** The facade `TimeMapDBWithAudit`: each public operation performs one
    event-table operation and then appends exactly one audit record. The
    wall clock is the explicit `now` argument of every operation. */
module TimeMapDBWithAudit {
  import opened Values
  import opened EventLogDB
  import opened AuditLogDB
  import opened PointInTime

  /** The two tables a store instance owns. */
  datatype Store = Store(db: EventLog, audit: AuditLog)

  /** The answer of `get` together with the store after its audit write. */
  datatype GetResult = GetResult(store: Store, value: Option<Val>)

  ghost predicate ValidStore(s: Store)
  {
    EventLogDB.Valid(s.db)
  }

  /** A new store: both tables empty. */
  function Init(): (r: Store)
    ensures ValidStore(r)
    ensures |r.db.table| == 0 && |r.audit| == 0
  {
    Store(EventLogDB.Empty(), [])
  }

  /** `set(user, key, value, time)`: creates the record with the clock time,
      overwrites its business timestamp with `time` when one is given, then
      audits the value that was set. */
  function Set(s: Store, user: string, key: Key, v: int, time: Option<Time>, now: Time): (r: Store)
    ensures |r.db.table| == |s.db.table| + 1
    ensures r.db.table[..|s.db.table|] == s.db.table
    ensures r.db.table[|s.db.table|].id == s.db.idCounter
    ensures r.db.table[|s.db.table|].key == key
    ensures r.db.table[|s.db.table|].value == Payload(v)
    ensures r.db.table[|s.db.table|].timestamp == EffectiveTime(time, now)
    ensures r.audit == s.audit + [AuditRecord(user, SetAction, key, Some(Payload(v)), now)]
    ensures ValidStore(s) ==> ValidStore(r)
  {
    var created := Create(s.db, key, Payload(v), now);
    var db :=
      match time
      case None => created
      case Some(t) =>
        var n := |created.table|;
        created.(table := created.table[..n - 1] + [created.table[n - 1].(timestamp := t)]);
    Store(db, Log(s.audit, user, SetAction, key, Some(Payload(v)), now))
  }

  /** `get(user, key, t)`: reads the records of `key` not after `t`, keeps
      the latest (earliest-inserted on a tie), audits the answer (None
      included) and returns it. The event table is not touched. */
  function Get(s: Store, user: string, key: Key, t: Time, now: Time): (r: GetResult)
    ensures r.store.db == s.db
    ensures r.value.None? <==>
              forall i :: 0 <= i < |s.db.table| ==> !Qualifies(s.db.table[i], key, Some(t))
    ensures r.value.Some? ==>
              exists i :: IsLatestAsOf(s.db.table, key, t, i) && r.value.value == s.db.table[i].value
    ensures r.store.audit == s.audit + [AuditRecord(user, GetAction, key, r.value, now)]
  {
    var entries := Read(s.db.table, key, Some(t));
    LatestOfRead(s.db.table, key, t);
    var value := LatestValue(entries);
    GetResult(Store(s.db, Log(s.audit, user, GetAction, key, value, now)), value)
  }

  /** `tombstone(user, key)`: creates a tombstone record stamped with the
      clock time, then audits the action with no value. */
  function Tombstone(s: Store, user: string, key: Key, now: Time): (r: Store)
    ensures |r.db.table| == |s.db.table| + 1
    ensures r.db.table[..|s.db.table|] == s.db.table
    ensures r.db.table[|s.db.table|].id == s.db.idCounter
    ensures r.db.table[|s.db.table|].key == key
    ensures r.db.table[|s.db.table|].value == Tombstoned
    ensures r.db.table[|s.db.table|].timestamp == now
    ensures r.audit == s.audit + [AuditRecord(user, TombstoneAction, key, None, now)]
    ensures ValidStore(s) ==> ValidStore(r)
  {
    Store(Create(s.db, key, Tombstoned, now), Log(s.audit, user, TombstoneAction, key, None, now))
  }
}
