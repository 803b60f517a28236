/** The point-in-time selection of `get`: among the records that qualify,
    the one with the largest business timestamp, the earliest one among
    equal timestamps. The store computes it with a single linear pass; the
    stable descending sort it replaces is kept as a reference definition
    and shown to pick the same record. */
module PointInTime {
  import opened Values
  import opened EventLogDB

  /** Position `i` holds a maximal timestamp of `entries` and every earlier
      position has a strictly smaller one. */
  ghost predicate IsLatest(entries: seq<Event>, i: int)
  {
    && 0 <= i < |entries|
    && (forall j :: 0 <= j < |entries| ==> entries[j].timestamp <= entries[i].timestamp)
    && (forall j :: 0 <= j < i ==> entries[j].timestamp < entries[i].timestamp)
  }

  /** The same rule over a whole table, restricted to the records that
      `read(key, t)` selects. */
  ghost predicate IsLatestAsOf(table: seq<Event>, key: Key, t: Time, i: int)
  {
    && 0 <= i < |table|
    && Qualifies(table[i], key, Some(t))
    && (forall j :: 0 <= j < |table| && Qualifies(table[j], key, Some(t)) ==>
          table[j].timestamp <= table[i].timestamp)
    && (forall j :: 0 <= j < i && Qualifies(table[j], key, Some(t)) ==>
          table[j].timestamp < table[i].timestamp)
  }

  /** At most one position satisfies the selection rule. */
  lemma LatestUnique(entries: seq<Event>, i: int, k: int)
    requires IsLatest(entries, i) && IsLatest(entries, k)
    ensures i == k
  {
    assert entries[i].timestamp == entries[k].timestamp;
  }

  /** At most one position of a table satisfies the rule for a query. */
  lemma LatestAsOfUnique(table: seq<Event>, key: Key, t: Time, i: int, k: int)
    requires IsLatestAsOf(table, key, t, i) && IsLatestAsOf(table, key, t, k)
    ensures i == k
  {
    assert table[i].timestamp == table[k].timestamp;
  }

  /** The linear reduction: scan left to right keeping the best position so
      far, and replace it only by a strictly later timestamp, so ties keep
      the earliest record. None exactly when there is nothing to choose. */
  function LatestIndex(entries: seq<Event>): (r: Option<nat>)
    ensures r.None? <==> |entries| == 0
    ensures r.Some? ==> IsLatest(entries, r.value)
    decreases |entries|
  {
    if |entries| == 0 then None
    else
      var last := |entries| - 1;
      match LatestIndex(entries[..last])
      case None => Some(last)
      case Some(best) =>
        if entries[last].timestamp > entries[best].timestamp then Some(last) else Some(best)
  }

  /** One step of the reduction: a record appended after the others
      replaces the current choice exactly when it is strictly later. */
  lemma LatestIndexAppend(entries: seq<Event>, e: Event)
    ensures LatestIndex(entries + [e]) ==
      match LatestIndex(entries)
      case None => Some(|entries|)
      case Some(b) => if e.timestamp > entries[b].timestamp then Some(|entries|) else Some(b)
  {
    assert (entries + [e])[..|entries|] == entries;
  }

  /** The value of the record the reduction picks; None when there are no
      records. */
  function LatestValue(entries: seq<Event>): (r: Option<Val>)
    ensures r.None? <==> |entries| == 0
    ensures r.Some? ==> exists i :: IsLatest(entries, i) && r.value == entries[i].value
  {
    match LatestIndex(entries)
    case None => None
    case Some(j) => Some(entries[j].value)
  }

  /** Two records are interchangeable for the selection when they agree on
      business timestamp and value (their ids may differ). */
  predicate SameFact(a: Event, b: Event)
  {
    a.timestamp == b.timestamp && a.value == b.value
  }

  /** Replacing the last record by an interchangeable one does not change
      what is selected. */
  lemma LatestValueSameFact(entries: seq<Event>, a: Event, a': Event)
    requires SameFact(a, a')
    ensures LatestValue(entries + [a]) == LatestValue(entries + [a'])
  {
    assert (entries + [a])[..|entries|] == entries;
    assert (entries + [a'])[..|entries|] == entries;
  }

  /** The selection depends only on the timestamps and values of the
      records, in order, and never on their ids. */
  lemma LatestValueIgnoresIds(xs: seq<Event>, ys: seq<Event>)
    requires |xs| == |ys|
    requires forall i :: 0 <= i < |xs| ==> SameFact(xs[i], ys[i])
    ensures LatestValue(xs) == LatestValue(ys)
  {
    if |xs| > 0 {
      var i := LatestIndex(xs).value;
      var k := LatestIndex(ys).value;
      assert IsLatest(ys, i);
      LatestUnique(ys, i, k);
    }
  }

  /** Two records with different business timestamps are selected the same
      way whichever of them was appended first. */
  lemma LatestValueSwap(entries: seq<Event>, a: Event, b: Event, a': Event, b': Event)
    requires SameFact(a, a') && SameFact(b, b')
    requires a.timestamp != b.timestamp
    ensures LatestValue(entries + [a] + [b]) == LatestValue(entries + [b'] + [a'])
  {
    var n := |entries|;
    var ab := entries + [a] + [b];
    var ba := entries + [b'] + [a'];
    assert ab[..n + 1] == entries + [a];
    assert ba[..n + 1] == entries + [b'];
    assert (entries + [a])[..n] == entries;
    assert (entries + [b'])[..n] == entries;
    var x := LatestIndex(entries + [a]).value;
    var y := LatestIndex(entries + [b']).value;
    assert LatestIndex(ab) == if b.timestamp > ab[x].timestamp then Some(n + 1) else Some(x);
    assert LatestIndex(ba) == if a.timestamp > ba[y].timestamp then Some(n + 1) else Some(y);
    match LatestIndex(entries)
    case None =>
      assert x == n && y == n;
    case Some(p) =>
      assert x == (if a.timestamp > entries[p].timestamp then n else p);
      assert y == (if b.timestamp > entries[p].timestamp then n else p);
      assert ab[p] == entries[p] && ba[p] == entries[p];
  }

  /** Appending a record that does not beat position `i` keeps `i` the
      selected position. */
  lemma LatestAsOfKept(prefix: seq<Event>, last: Event, key: Key, t: Time, i: int)
    requires IsLatestAsOf(prefix, key, t, i)
    requires Qualifies(last, key, Some(t)) ==> last.timestamp <= prefix[i].timestamp
    ensures IsLatestAsOf(prefix + [last], key, t, i)
  {
    var table := prefix + [last];
    forall j | 0 <= j < |table| && Qualifies(table[j], key, Some(t))
      ensures table[j].timestamp <= table[i].timestamp
    {
      if j < |prefix| {
        assert table[j] == prefix[j];
      }
    }
  }

  /** Appending a qualifying record later than every qualifying record
      already present makes it the selected one. */
  lemma LatestAsOfNew(prefix: seq<Event>, last: Event, key: Key, t: Time)
    requires Qualifies(last, key, Some(t))
    requires forall j :: 0 <= j < |prefix| && Qualifies(prefix[j], key, Some(t)) ==>
               prefix[j].timestamp < last.timestamp
    ensures IsLatestAsOf(prefix + [last], key, t, |prefix|)
  {
    var table := prefix + [last];
    assert forall j :: 0 <= j < |prefix| ==> table[j] == prefix[j];
  }

  /** Reading then reducing selects, among the records of the whole table
      that qualify, the one the selection rule names, and finds nothing
      exactly when no record qualifies. */
  ghost predicate SelectsLatestAsOf(table: seq<Event>, key: Key, t: Time)
  {
    var entries := Read(table, key, Some(t));
    && (LatestIndex(entries).None? <==>
          forall i :: 0 <= i < |table| ==> !Qualifies(table[i], key, Some(t)))
    && (LatestIndex(entries).Some? ==>
          exists i :: IsLatestAsOf(table, key, t, i) && entries[LatestIndex(entries).value] == table[i])
  }

  /** Appending a record the query does not select keeps the property. */
  lemma SelectsStepSkip(prefix: seq<Event>, last: Event, key: Key, t: Time)
    requires SelectsLatestAsOf(prefix, key, t)
    requires !Qualifies(last, key, Some(t))
    ensures SelectsLatestAsOf(prefix + [last], key, t)
  {
    var table := prefix + [last];
    ReadAppend(prefix, last, key, Some(t));
    var entries := Read(prefix, key, Some(t));
    assert Read(table, key, Some(t)) == entries;
    assert forall i :: 0 <= i < |prefix| ==> table[i] == prefix[i];
    match LatestIndex(entries)
    case None =>
    case Some(b) =>
      var i :| IsLatestAsOf(prefix, key, t, i) && entries[b] == prefix[i];
      LatestAsOfKept(prefix, last, key, t, i);
  }

  /** Appending a qualifying record later than every qualifying record
      already present makes it the answer. */
  lemma SelectsStepNew(prefix: seq<Event>, last: Event, key: Key, t: Time)
    requires Qualifies(last, key, Some(t))
    requires forall j :: 0 <= j < |prefix| && Qualifies(prefix[j], key, Some(t)) ==>
               prefix[j].timestamp < last.timestamp
    requires var before := Read(prefix, key, Some(t));
      LatestIndex(before).None? || last.timestamp > before[LatestIndex(before).value].timestamp
    ensures SelectsLatestAsOf(prefix + [last], key, t)
  {
    var table := prefix + [last];
    ReadAppend(prefix, last, key, Some(t));
    var before := Read(prefix, key, Some(t));
    var entries := before + [last];
    assert Read(table, key, Some(t)) == entries;
    LatestIndexAppend(before, last);
    assert LatestIndex(entries) == Some(|before|);
    LatestAsOfNew(prefix, last, key, t);
    assert table[|prefix|] == last && entries[|before|] == last;
    assert IsLatestAsOf(table, key, t, |prefix|);
  }

  /** When a qualifying record beats the current choice, or there is none,
      it is later than every qualifying record already present. */
  lemma BeatsAll(prefix: seq<Event>, last: Event, key: Key, t: Time)
    requires SelectsLatestAsOf(prefix, key, t)
    requires var before := Read(prefix, key, Some(t));
      LatestIndex(before).None? || last.timestamp > before[LatestIndex(before).value].timestamp
    ensures forall j :: 0 <= j < |prefix| && Qualifies(prefix[j], key, Some(t)) ==>
              prefix[j].timestamp < last.timestamp
  {
    var before := Read(prefix, key, Some(t));
    if LatestIndex(before).Some? {
      var i :| IsLatestAsOf(prefix, key, t, i) && before[LatestIndex(before).value] == prefix[i];
    }
  }

  /** Appending a qualifying record that does not beat the current choice
      keeps that choice. */
  lemma SelectsStepKeep(prefix: seq<Event>, last: Event, key: Key, t: Time)
    requires SelectsLatestAsOf(prefix, key, t)
    requires Qualifies(last, key, Some(t))
    requires var before := Read(prefix, key, Some(t));
      LatestIndex(before).Some? && last.timestamp <= before[LatestIndex(before).value].timestamp
    ensures SelectsLatestAsOf(prefix + [last], key, t)
  {
    var table := prefix + [last];
    ReadAppend(prefix, last, key, Some(t));
    var before := Read(prefix, key, Some(t));
    var entries := before + [last];
    LatestIndexAppend(before, last);
    var b := LatestIndex(before).value;
    var i :| IsLatestAsOf(prefix, key, t, i) && before[b] == prefix[i];
    LatestAsOfKept(prefix, last, key, t, i);
    assert IsLatestAsOf(table, key, t, i) && entries[b] == table[i];
  }

  /** The property holds of every table, by induction on its length. */
  lemma {:induction false} LatestOfRead(table: seq<Event>, key: Key, t: Time)
    ensures SelectsLatestAsOf(table, key, t)
    decreases |table|
  {
    if |table| > 0 {
      var prefix := table[..|table| - 1];
      var last := table[|table| - 1];
      assert table == prefix + [last];
      LatestOfRead(prefix, key, t);
      var before := Read(prefix, key, Some(t));
      if !Qualifies(last, key, Some(t)) {
        SelectsStepSkip(prefix, last, key, t);
      } else if LatestIndex(before).None? || last.timestamp > before[LatestIndex(before).value].timestamp {
        BeatsAll(prefix, last, key, t);
        SelectsStepNew(prefix, last, key, t);
      } else {
        SelectsStepKeep(prefix, last, key, t);
      }
    }
  }

  /** Timestamps never increase along the sequence. */
  ghost predicate SortedDesc(s: seq<Event>)
  {
    forall i, j :: 0 <= i < j < |s| ==> s[i].timestamp >= s[j].timestamp
  }

  /** A record no later than the head of a descending list may be put in
      front of it. */
  lemma ConsSorted(h: Event, tail: seq<Event>)
    requires SortedDesc(tail)
    requires forall k :: 0 <= k < |tail| ==> tail[k].timestamp <= h.timestamp
    ensures SortedDesc([h] + tail)
  {
    var r := [h] + tail;
    assert forall k :: 1 <= k < |r| ==> r[k] == tail[k - 1];
  }

  /** Every record drawn from the rest of a descending list, or earlier than
      its head, is no later than its head. */
  lemma BelowHead(l: seq<Event>, x: Event, tail: seq<Event>)
    requires SortedDesc(l) && |l| > 0 && x.timestamp < l[0].timestamp
    requires forall k :: 0 <= k < |tail| ==> tail[k] == x || tail[k] in l[1..]
    ensures forall k :: 0 <= k < |tail| ==> tail[k].timestamp <= l[0].timestamp
  {
    forall k | 0 <= k < |tail|
      ensures tail[k].timestamp <= l[0].timestamp
    {
      if tail[k] != x {
        var j :| 0 <= j < |l[1..]| && l[1..][j] == tail[k];
        assert l[j + 1] == tail[k];
      }
    }
  }

  /** Putting back the head of a descending list in front of the insertion
      into its rest keeps the list descending and adds exactly `x`. */
  lemma ConsBehindHead(x: Event, l: seq<Event>, tail: seq<Event>)
    requires SortedDesc(l) && |l| > 0 && x.timestamp < l[0].timestamp
    requires SortedDesc(tail) && |tail| == |l|
    requires forall k :: 0 <= k < |tail| ==> tail[k] == x || tail[k] in l[1..]
    requires multiset(tail) == multiset(l[1..]) + multiset{x}
    ensures SortedDesc([l[0]] + tail)
    ensures forall k :: 0 <= k < |tail| + 1 ==> ([l[0]] + tail)[k] == x || ([l[0]] + tail)[k] in l
    ensures multiset([l[0]] + tail) == multiset(l) + multiset{x}
  {
    assert l == [l[0]] + l[1..];
    BelowHead(l, x, tail);
    ConsSorted(l[0], tail);
    var r := [l[0]] + tail;
    assert forall k :: 1 <= k < |r| ==> r[k] == tail[k - 1];
  }

  /** `r` is `l` with `x` placed at position `p`, after exactly the records
      strictly later than `x` and before the first one that is not. */
  ghost predicate InsertedAt(x: Event, l: seq<Event>, r: seq<Event>, p: int)
  {
    && 0 <= p <= |l|
    && r == l[..p] + [x] + l[p..]
    && (forall k :: 0 <= k < p ==> l[k].timestamp > x.timestamp)
    && (p < |l| ==> l[p].timestamp <= x.timestamp)
  }

  /** Moving the insertion point one place back past a strictly later head. */
  lemma InsertedBehindHead(x: Event, l: seq<Event>, tail: seq<Event>)
    requires |l| > 0 && l[0].timestamp > x.timestamp
    requires exists p :: InsertedAt(x, l[1..], tail, p)
    ensures exists p :: InsertedAt(x, l, [l[0]] + tail, p)
  {
    var p :| InsertedAt(x, l[1..], tail, p);
    assert l[..p + 1] == [l[0]] + l[1..][..p];
    assert l[p + 1..] == l[1..][p..];
    assert InsertedAt(x, l, [l[0]] + tail, p + 1);
  }

  /** Inserts `x`, which came before every record of the descending list `l`,
      in front of the first record whose timestamp is not larger: records
      with equal timestamps keep their original order. */
  function InsertDesc(x: Event, l: seq<Event>): (r: seq<Event>)
    requires SortedDesc(l)
    ensures |r| == |l| + 1
    ensures forall k :: 0 <= k < |r| ==> r[k] == x || r[k] in l
    ensures SortedDesc(r)
    ensures multiset(r) == multiset(l) + multiset{x}
    ensures r[0] == (if |l| == 0 || l[0].timestamp <= x.timestamp then x else l[0])
    decreases |l|
  {
    if |l| == 0 || l[0].timestamp <= x.timestamp then
      ConsSorted(x, l);
      [x] + l
    else
      var tail := InsertDesc(x, l[1..]);
      ConsBehindHead(x, l, tail);
      [l[0]] + tail
  }

  /** The insertion point: `x` lands after exactly the records strictly
      later than it, so it goes ahead of every record with an equal
      timestamp. */
  lemma {:induction false} InsertDescPosition(x: Event, l: seq<Event>)
    requires SortedDesc(l)
    ensures exists p :: InsertedAt(x, l, InsertDesc(x, l), p)
    decreases |l|
  {
    if |l| == 0 || l[0].timestamp <= x.timestamp {
      assert InsertedAt(x, l, InsertDesc(x, l), 0);
    } else {
      InsertDescPosition(x, l[1..]);
      InsertedBehindHead(x, l, InsertDesc(x, l[1..]));
    }
  }

  /** `sorted(entries, key=timestamp, reverse=True)`: a stable sort by
      descending timestamp, written as an insertion sort. */
  function SortDesc(entries: seq<Event>): (r: seq<Event>)
    ensures SortedDesc(r)
    ensures multiset(r) == multiset(entries)
    ensures |r| == |entries|
    decreases |entries|
  {
    if |entries| == 0 then []
    else
      assert entries == [entries[0]] + entries[1..];
      InsertDesc(entries[0], SortDesc(entries[1..]))
  }

  /** A first record no earlier than the rest's choice is the choice. */
  lemma LatestAtFront(entries: seq<Event>, k: int)
    requires |entries| > 1 && IsLatest(entries[1..], k)
    requires entries[1..][k].timestamp <= entries[0].timestamp
    ensures IsLatest(entries, 0)
  {
    forall j | 1 <= j < |entries|
      ensures entries[j].timestamp <= entries[0].timestamp
    {
      assert entries[j] == entries[1..][j - 1];
    }
  }

  /** Otherwise the rest's choice, shifted by one, stays the choice. */
  lemma LatestBehindFront(entries: seq<Event>, k: int)
    requires |entries| > 1 && IsLatest(entries[1..], k)
    requires entries[1..][k].timestamp > entries[0].timestamp
    ensures IsLatest(entries, k + 1)
  {
    forall j | 1 <= j < |entries|
      ensures entries[j] == entries[1..][j - 1]
    {
    }
  }

  /** The head of the stable descending sort sits at a position the
      selection rule names. */
  lemma {:induction false} SortHeadIsLatest(entries: seq<Event>) returns (k: nat)
    requires |entries| > 0
    ensures IsLatest(entries, k) && SortDesc(entries)[0] == entries[k]
    decreases |entries|
  {
    var rest := entries[1..];
    if |rest| == 0 {
      k := 0;
    } else {
      var k' := SortHeadIsLatest(rest);
      var sorted := SortDesc(rest);
      assert SortDesc(entries) == InsertDesc(entries[0], sorted);
      if sorted[0].timestamp <= entries[0].timestamp {
        LatestAtFront(entries, k');
        k := 0;
      } else {
        LatestBehindFront(entries, k');
        k := k' + 1;
      }
    }
  }

  /** Taking the first record of the stable descending sort, as the source
      does, gives the record the linear reduction picks. */
  lemma SortedFirstIsReduction(entries: seq<Event>)
    requires |entries| > 0
    ensures LatestIndex(entries).Some?
    ensures SortDesc(entries)[0] == entries[LatestIndex(entries).value]
  {
    var k := SortHeadIsLatest(entries);
    LatestUnique(entries, k, LatestIndex(entries).value);
  }
}
