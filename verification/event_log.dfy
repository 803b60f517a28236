/** The append-only event table (`EventLogDB`): every write becomes a new
    record `{id, key, value, timestamp}`; nothing is ever updated in place
    except the business timestamp of the newest record, which the facade
    may overwrite right after creating it. */
module EventLogDB {
  import opened Values

  datatype Event = Event(id: nat, key: Key, value: Val, timestamp: Time)

  /** The table plus the counter that hands out the next id. */
  datatype EventLog = EventLog(table: seq<Event>, idCounter: nat)

  /** Ids are handed out in order: the counter equals the number of records
      and every record's id is its position in the table. */
  ghost predicate Valid(db: EventLog)
  {
    && db.idCounter == |db.table|
    && forall i :: 0 <= i < |db.table| ==> db.table[i].id == i
  }

  /** Ids strictly increase along a sequence of records. */
  ghost predicate IdsIncreasing(s: seq<Event>)
  {
    forall i, j :: 0 <= i < j < |s| ==> s[i].id < s[j].id
  }

  lemma ValidIdsIncreasing(db: EventLog)
    requires Valid(db)
    ensures IdsIncreasing(db.table)
  {
  }

  /** A freshly constructed, empty table. */
  function Empty(): (r: EventLog)
    ensures Valid(r)
    ensures |r.table| == 0
  {
    EventLog([], 0)
  }

  /** `create(key, value)`: appends one record stamped with the clock reading
      `now`, whose id is the current counter, then bumps the counter. */
  function Create(db: EventLog, key: Key, value: Val, now: Time): (r: EventLog)
    ensures |r.table| == |db.table| + 1
    ensures r.table[..|db.table|] == db.table
    ensures r.table[|db.table|].id == db.idCounter
    ensures r.table[|db.table|].key == key
    ensures r.table[|db.table|].value == value
    ensures r.table[|db.table|].timestamp == now
    ensures r.idCounter == db.idCounter + 1
    ensures Valid(db) ==> Valid(r) && IdsIncreasing(r.table)
  {
    EventLog(db.table + [Event(db.idCounter, key, value, now)], db.idCounter + 1)
  }

  /** Whether a record is selected by `read(key, asOf)`: the key matches and,
      when a time is given, the record's timestamp is not after it. */
  predicate Qualifies(e: Event, key: Key, asOf: Option<Time>)
  {
    e.key == key && (asOf.Some? ==> e.timestamp <= asOf.value)
  }

  /** `read(key, asOf)`: the records of the table that qualify, in table
      order. Without a time every record of the key qualifies. */
  function Read(table: seq<Event>, key: Key, asOf: Option<Time>): (r: seq<Event>)
    ensures forall e :: e in r <==> e in table && Qualifies(e, key, asOf)
    ensures |r| <= |table|
    decreases |table|
  {
    if |table| == 0 then []
    else
      var prefix := table[..|table| - 1];
      var last := table[|table| - 1];
      assert table == prefix + [last];
      var rest := Read(prefix, key, asOf);
      if Qualifies(last, key, asOf) then rest + [last] else rest
  }

  /** The answer of `read` is in insertion order: when ids increase along
      the table they increase along the answer. */
  lemma {:induction false} ReadKeepsOrder(table: seq<Event>, key: Key, asOf: Option<Time>)
    requires IdsIncreasing(table)
    ensures IdsIncreasing(Read(table, key, asOf))
    decreases |table|
  {
    if |table| > 0 {
      var prefix := table[..|table| - 1];
      var last := table[|table| - 1];
      ReadKeepsOrder(prefix, key, asOf);
      var rest := Read(prefix, key, asOf);
      assert forall e :: e in rest ==> e in prefix;
      assert forall e :: e in prefix ==> e.id < last.id;
    }
  }

  /** Reading never looks past the records that qualify: appending a record
      that does not qualify leaves the answer unchanged, and appending one
      that does adds exactly it at the end. */
  lemma ReadAppend(table: seq<Event>, e: Event, key: Key, asOf: Option<Time>)
    ensures Read(table + [e], key, asOf)
            == Read(table, key, asOf) + (if Qualifies(e, key, asOf) then [e] else [])
  {
    assert (table + [e])[..|table|] == table;
  }
}
