/** The call sequences the repository's own test routines exercise, with
    the clock replaced by increasing integers. */
module Scenarios {
  import opened Values
  import opened EventLogDB
  import opened AuditLogDB
  import opened TimeMapDBWithAudit
  import opened TimeMapProperties

  /** The records the session below writes, in call order. */
  const first := Event(0, 1, Payload(1), 10)
  const grave := Event(1, 1, Tombstoned, 12)
  const second := Event(2, 1, Payload(2), 14)

  /** Alice sets key 1 to 1 at 10; Bob reads it back at 11. */
  lemma SessionSetGet() returns (g: GetResult)
    ensures g == Get(Set(Init(), "Alice", 1, 1, Some(10), 10), "Bob", 1, 11, 11)
    ensures g.value == Some(Payload(1))
    ensures g.store.db == EventLog([first], 1) && |g.store.audit| == 2
  {
    var s := Set(Init(), "Alice", 1, 1, Some(10), 10);
    assert s.db.table == [first];
    SetThenGet(Init(), "Alice", 1, 1, Some(10), 10, "Bob", 11, 11);
    g := Get(s, "Bob", 1, 11, 11);
  }

  /** Alice tombstones key 1 at 12; Bob's read at 13 sees the tombstone. */
  lemma SessionTombstoneGet(s: Store) returns (g: GetResult)
    requires s.db == EventLog([first], 1)
    ensures g == Get(Tombstone(s, "Alice", 1, 12), "Bob", 1, 13, 13)
    ensures g.value == Some(Tombstoned)
    ensures g.store.db == EventLog([first, grave], 2) && |g.store.audit| == |s.audit| + 2
  {
    var s' := Tombstone(s, "Alice", 1, 12);
    assert s'.db.table == [first, grave];
    TombstoneThenGet(s, "Alice", 1, 12, "Bob", 13, 13);
    g := Get(s', "Bob", 1, 13, 13);
  }

  /** Bob sets key 1 to 2 at 14; Alice's read at 15 sees 2 again. */
  lemma SessionUntombstone(s: Store) returns (g: GetResult)
    requires s.db == EventLog([first, grave], 2)
    ensures g == Get(Set(s, "Bob", 1, 2, Some(14), 14), "Alice", 1, 15, 15)
    ensures g.value == Some(Payload(2))
    ensures g.store.db == EventLog([first, grave, second], 3) && |g.store.audit| == |s.audit| + 2
  {
    var s' := Set(s, "Bob", 1, 2, Some(14), 14);
    assert s'.db.table == [first, grave, second];
    SetThenGet(s, "Bob", 1, 2, Some(14), 14, "Alice", 15, 15);
    g := Get(s', "Alice", 1, 15, 15);
  }

  /** Alice tombstones key 1 again at 16; Bob's read at 17 sees it. */
  lemma SessionTombstoneAgain(s: Store) returns (g: GetResult)
    requires s.db == EventLog([first, grave, second], 3)
    ensures g == Get(Tombstone(s, "Alice", 1, 16), "Bob", 1, 17, 17)
    ensures g.value == Some(Tombstoned)
    ensures |g.store.audit| == |s.audit| + 2
  {
    var s' := Tombstone(s, "Alice", 1, 16);
    TombstoneThenGet(s, "Alice", 1, 16, "Bob", 17, 17);
    g := Get(s', "Bob", 1, 17, 17);
  }

  /** The whole session: eight calls, eight audit records, and every read
      sees the latest write. */
  lemma AuditedSession()
    ensures var g2 := Get(Set(Init(), "Alice", 1, 1, Some(10), 10), "Bob", 1, 11, 11);
      var g4 := Get(Tombstone(g2.store, "Alice", 1, 12), "Bob", 1, 13, 13);
      var g6 := Get(Set(g4.store, "Bob", 1, 2, Some(14), 14), "Alice", 1, 15, 15);
      var g8 := Get(Tombstone(g6.store, "Alice", 1, 16), "Bob", 1, 17, 17);
      && g2.value == Some(Payload(1)) && |g2.store.audit| == 2
      && g4.value == Some(Tombstoned) && |g4.store.audit| == 4
      && g6.value == Some(Payload(2))
      && g8.value == Some(Tombstoned) && |g8.store.audit| == 8
  {
    var g2 := SessionSetGet();
    var g4 := SessionTombstoneGet(g2.store);
    var g6 := SessionUntombstone(g4.store);
    var g8 := SessionTombstoneAgain(g6.store);
  }

  /** A write postdated to 22 is invisible to a query as of 21, which still
      sees the earlier value, and visible to a query as of 23. */
  lemma PostdatedWrite()
    ensures var s1 := Set(Init(), "Alice", 1, 1, Some(20), 20);
      var s2 := Set(s1, "Bob", 1, 2, Some(22), 20);
      var g3 := Get(s2, "Alice", 1, 21, 21);
      var g4 := Get(g3.store, "Bob", 1, 23, 23);
      && g3.value == Some(Payload(1))
      && g4.value == Some(Payload(2))
  {
    var s1 := Set(Init(), "Alice", 1, 1, Some(20), 20);
    var s2 := Set(s1, "Bob", 1, 2, Some(22), 20);
    assert s1.db == EventLog([Event(0, 1, Payload(1), 20)], 1);
    assert Get(s1, "Alice", 1, 21, 21).value == Some(Payload(1)) by {
      SetThenGet(Init(), "Alice", 1, 1, Some(20), 20, "Alice", 21, 21);
    }
    var g3 := Get(s2, "Alice", 1, 21, 21);
    assert g3.value == Some(Payload(1)) by {
      SetInvisibleBefore(s1, "Bob", 1, 2, Some(22), 20, "Alice", 1, 21, 21);
    }
    assert g3.store.db == s2.db;
    assert Get(s2, "Bob", 1, 23, 23).value == Some(Payload(2)) by {
      SetThenGet(s1, "Bob", 1, 2, Some(22), 20, "Bob", 23, 23);
    }
  }

  /** On a new store every get answers None and leaves one audit record
      carrying no value. */
  lemma GetOnEmptyStore(user: string, key: Key, t: Time, now: Time)
    ensures Get(Init(), user, key, t, now).value == None
    ensures Get(Init(), user, key, t, now).store.audit == [AuditRecord(user, GetAction, key, None, now)]
  {
  }
}
