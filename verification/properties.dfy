/** What the facade promises across calls: the tie-break by id, read
    purity, time-travel visibility of writes, the write-then-read round
    trips and the one-audit-record-per-call invariant. */
module TimeMapProperties {
  import opened Values
  import opened EventLogDB
  import opened PointInTime
  import opened TimeMapDBWithAudit

  /** On a store whose ids are positions, `get` answers with the value of a
      qualifying record of maximal timestamp, and among records sharing that
      timestamp it is the one with the smallest id. */
  lemma GetPrefersSmallestId(s: Store, user: string, key: Key, t: Time, now: Time)
    requires ValidStore(s)
    ensures var r := Get(s, user, key, t, now);
      r.value.Some? ==>
        exists e :: e in s.db.table && Qualifies(e, key, Some(t)) && r.value.value == e.value &&
          forall f :: f in s.db.table && Qualifies(f, key, Some(t)) ==>
            f.timestamp < e.timestamp || (f.timestamp == e.timestamp && e.id <= f.id)
  {
    var r := Get(s, user, key, t, now);
    if r.value.Some? {
      var table := s.db.table;
      var i :| IsLatestAsOf(table, key, t, i) && r.value.value == table[i].value;
      var e := table[i];
      forall f | f in table && Qualifies(f, key, Some(t))
        ensures f.timestamp < e.timestamp || (f.timestamp == e.timestamp && e.id <= f.id)
      {
        var j :| 0 <= j < |table| && table[j] == f;
        assert f.id == j && e.id == i;
      }
      assert e in table;
    }
  }

  /** `get` never changes what a later identical `get` answers. */
  lemma GetIsRepeatable(s: Store, user: string, key: Key, t: Time, now: Time, user': string, now': Time)
    ensures var first := Get(s, user, key, t, now);
      Get(first.store, user', key, t, now').value == first.value
  {
  }

  /** Appending a record that a query does not select leaves that query's
      answer unchanged. */
  lemma AppendInvisible(s: Store, s': Store, e: Event, user: string, key: Key, t: Time, now: Time)
    requires s'.db.table == s.db.table + [e]
    requires !Qualifies(e, key, Some(t))
    ensures Get(s', user, key, t, now).value == Get(s, user, key, t, now).value
  {
    ReadAppend(s.db.table, e, key, Some(t));
  }

  /** A write whose business time is after `t`, or that is to another key,
      is invisible to a query as of `t`, whatever order the calls came in. */
  lemma SetInvisibleBefore(s: Store, user: string, key: Key, v: int, time: Option<Time>, now: Time,
                           user': string, key': Key, t: Time, now': Time)
    requires key != key' || EffectiveTime(time, now) > t
    ensures Get(Set(s, user, key, v, time, now), user', key', t, now').value
            == Get(s, user', key', t, now').value
  {
    var s' := Set(s, user, key, v, time, now);
    var e := s'.db.table[|s.db.table|];
    assert s'.db.table == s.db.table + [e];
    AppendInvisible(s, s', e, user', key', t, now');
  }

  /** The same for a tombstone, which is stamped with the clock. */
  lemma TombstoneInvisibleBefore(s: Store, user: string, key: Key, now: Time,
                                 user': string, key': Key, t: Time, now': Time)
    requires key != key' || now > t
    ensures Get(Tombstone(s, user, key, now), user', key', t, now').value
            == Get(s, user', key', t, now').value
  {
    var s' := Tombstone(s, user, key, now);
    var e := s'.db.table[|s.db.table|];
    assert s'.db.table == s.db.table + [e];
    AppendInvisible(s, s', e, user', key', t, now');
  }

  /** Reading a table extended by two records, by which of them qualify. */
  lemma ReadAppendTwo(table: seq<Event>, a: Event, b: Event, key: Key, asOf: Option<Time>)
    ensures var r, r2 := Read(table, key, asOf), Read(table + [a] + [b], key, asOf);
      && (Qualifies(a, key, asOf) && Qualifies(b, key, asOf) ==> r2 == r + [a] + [b])
      && (Qualifies(a, key, asOf) && !Qualifies(b, key, asOf) ==> r2 == r + [a])
      && (!Qualifies(a, key, asOf) && Qualifies(b, key, asOf) ==> r2 == r + [b])
      && (!Qualifies(a, key, asOf) && !Qualifies(b, key, asOf) ==> r2 == r)
  {
    ReadAppend(table, a, key, asOf);
    ReadAppend(table + [a], b, key, asOf);
  }

  /** Reading then reducing over a table extended by two records gives the
      same answer when the two are appended in the other order (with fresh
      ids), unless they are for the same key at the same business time. */
  lemma ReadLatestCommute(table: seq<Event>, e1: Event, e2: Event, f1: Event, f2: Event, key: Key, t: Time)
    requires SameFact(e1, f1) && e1.key == f1.key
    requires SameFact(e2, f2) && e2.key == f2.key
    requires e1.key != e2.key || e1.timestamp != e2.timestamp
    ensures LatestValue(Read(table + [e1] + [e2], key, Some(t)))
         == LatestValue(Read(table + [f2] + [f1], key, Some(t)))
  {
    var before := Read(table, key, Some(t));
    ReadAppendTwo(table, e1, e2, key, Some(t));
    ReadAppendTwo(table, f2, f1, key, Some(t));
    var q1, q2 := Qualifies(e1, key, Some(t)), Qualifies(e2, key, Some(t));
    assert q1 == Qualifies(f1, key, Some(t)) && q2 == Qualifies(f2, key, Some(t));
    if q1 && q2 {
      LatestValueSwap(before, e1, e2, f1, f2);
    } else if q1 {
      LatestValueSameFact(before, e1, f1);
    } else if q2 {
      LatestValueSameFact(before, e2, f2);
    }
  }

  /** Two writes that are to different keys or carry different business
      times give every later query the same answer whichever was made first:
      visibility follows business time, not call order. */
  lemma SetsCommute(s: Store, user1: string, key1: Key, v1: int, time1: Option<Time>, now1: Time,
                    user2: string, key2: Key, v2: int, time2: Option<Time>, now2: Time,
                    user: string, key: Key, t: Time, now: Time)
    requires key1 != key2 || EffectiveTime(time1, now1) != EffectiveTime(time2, now2)
    ensures Get(Set(Set(s, user1, key1, v1, time1, now1), user2, key2, v2, time2, now2), user, key, t, now).value
         == Get(Set(Set(s, user2, key2, v2, time2, now2), user1, key1, v1, time1, now1), user, key, t, now).value
  {
    var table := s.db.table;
    var n := |table|;
    var s1 := Set(s, user1, key1, v1, time1, now1);
    var s12 := Set(s1, user2, key2, v2, time2, now2);
    var s2 := Set(s, user2, key2, v2, time2, now2);
    var s21 := Set(s2, user1, key1, v1, time1, now1);
    var e1, e2 := s1.db.table[n], s12.db.table[n + 1];
    var f2, f1 := s2.db.table[n], s21.db.table[n + 1];
    assert s12.db.table == table + [e1] + [e2];
    assert s21.db.table == table + [f2] + [f1];
    ReadLatestCommute(table, e1, e2, f1, f2, key, t);
  }

  /** A freshly appended record is what a query sees when it qualifies and
      no earlier record of the key lies in between its timestamp and the
      query time. */
  lemma AppendSeen(s: Store, s': Store, e: Event, user: string, t: Time, now: Time)
    requires s'.db.table == s.db.table + [e]
    requires Qualifies(e, e.key, Some(t))
    requires forall i :: 0 <= i < |s.db.table| && s.db.table[i].key == e.key ==>
               !(e.timestamp <= s.db.table[i].timestamp <= t)
    ensures Get(s', user, e.key, t, now).value == Some(e.value)
  {
    var table := s'.db.table;
    var n := |s.db.table|;
    var r := Get(s', user, e.key, t, now);
    assert Qualifies(table[n], e.key, Some(t));
    var i :| IsLatestAsOf(table, e.key, t, i) && r.value.value == table[i].value;
    assert table[n].timestamp <= table[i].timestamp;
    assert i == n;
  }

  /** A second write of the same key at the same business time is shadowed
      by the first: the stable reverse sort keeps the earlier record ahead of
      a later one with an equal timestamp. */
  lemma SameTimeWriteShadowed(s: Store, user1: string, key: Key, v1: int, user2: string, v2: int, t: Time,
                              now1: Time, now2: Time, user: string, t': Time, now: Time)
    requires t <= t'
    requires forall i :: 0 <= i < |s.db.table| && s.db.table[i].key == key ==>
               !(t <= s.db.table[i].timestamp <= t')
    ensures Get(Set(Set(s, user1, key, v1, Some(t), now1), user2, key, v2, Some(t), now2), user, key, t', now).value
            == Some(Payload(v1))
  {
    var n := |s.db.table|;
    var s1 := Set(s, user1, key, v1, Some(t), now1);
    var s2 := Set(s1, user2, key, v2, Some(t), now2);
    var table := s2.db.table;
    assert table == s.db.table + [s1.db.table[n]] + [table[n + 1]];
    assert forall j :: 0 <= j < n ==> table[j] == s.db.table[j];
    assert table[n].timestamp == t == table[n + 1].timestamp;
    assert IsLatestAsOf(table, key, t', n);
    var r := Get(s2, user, key, t', now);
    var i :| IsLatestAsOf(table, key, t', i) && r.value.value == table[i].value;
    LatestAsOfUnique(table, key, t', i, n);
  }

  /** Round trip: after `set(key, v, time)`, a `get` as of any later time
      returns `v` unless a record of the key already lies in between. */
  lemma SetThenGet(s: Store, user: string, key: Key, v: int, time: Option<Time>, now: Time,
                   user': string, t: Time, now': Time)
    requires EffectiveTime(time, now) <= t
    requires forall i :: 0 <= i < |s.db.table| && s.db.table[i].key == key ==>
               !(EffectiveTime(time, now) <= s.db.table[i].timestamp <= t)
    ensures Get(Set(s, user, key, v, time, now), user', key, t, now').value == Some(Payload(v))
  {
    var s' := Set(s, user, key, v, time, now);
    var e := s'.db.table[|s.db.table|];
    assert s'.db.table == s.db.table + [e];
    AppendSeen(s, s', e, user', t, now');
  }

  /** After `tombstone(key)` at `now`, a `get` as of any later time returns
      the tombstone marker (not None, not an older value) unless a record of
      the key already lies in between. */
  lemma TombstoneThenGet(s: Store, user: string, key: Key, now: Time, user': string, t: Time, now': Time)
    requires now <= t
    requires forall i :: 0 <= i < |s.db.table| && s.db.table[i].key == key ==>
               !(now <= s.db.table[i].timestamp <= t)
    ensures Get(Tombstone(s, user, key, now), user', key, t, now').value == Some(Tombstoned)
  {
    var s' := Tombstone(s, user, key, now);
    var e := s'.db.table[|s.db.table|];
    assert s'.db.table == s.db.table + [e];
    AppendSeen(s, s', e, user', t, now');
  }

  /** A tombstone is not terminal: a later `set` un-tombstones the key for
      queries from its business time on. */
  lemma SetAfterTombstone(s: Store, user: string, key: Key, now: Time,
                          user': string, v: int, time: Option<Time>, now': Time,
                          user'': string, t: Time, now'': Time)
    requires now < EffectiveTime(time, now') <= t
    requires forall i :: 0 <= i < |s.db.table| && s.db.table[i].key == key ==>
               !(EffectiveTime(time, now') <= s.db.table[i].timestamp <= t)
    ensures Get(Set(Tombstone(s, user, key, now), user', key, v, time, now'), user'', key, t, now'').value
            == Some(Payload(v))
  {
    var s1 := Tombstone(s, user, key, now);
    assert s1.db.table == s.db.table + [s1.db.table[|s.db.table|]];
    SetThenGet(s1, user', key, v, time, now', user'', t, now'');
  }
}
