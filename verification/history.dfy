/** Sequences of facade calls: applying them in call order, and the
    invariants every run keeps — one audit record per call, in call order,
    and an event table that only grows, one record per write. */
module History {
  import opened Values
  import opened AuditLogDB
  import opened TimeMapDBWithAudit

  /** One call on the facade with all of its arguments, the clock included. */
  datatype Op =
    | SetOp(user: string, key: Key, v: int, time: Option<Time>, now: Time)
    | GetOp(user: string, key: Key, t: Time, now: Time)
    | TombstoneOp(user: string, key: Key, now: Time)

  /** The action each call reports to the audit table. */
  function ActionOf(op: Op): Action
  {
    match op
    case SetOp(_, _, _, _, _) => SetAction
    case GetOp(_, _, _, _) => GetAction
    case TombstoneOp(_, _, _) => TombstoneAction
  }

  /** Whether a call adds to the event table. */
  predicate IsWrite(op: Op)
  {
    !op.GetOp?
  }

  /** Performs one call; a get's answer is dropped, only its store kept. Each
      call adds exactly one audit record describing it and, for a write,
      exactly one event record; earlier records stay as they were. */
  function Apply(s: Store, op: Op): (r: Store)
    ensures |r.audit| == |s.audit| + 1 && r.audit[..|s.audit|] == s.audit
    ensures r.audit[|s.audit|].action == ActionOf(op)
    ensures r.audit[|s.audit|].user == op.user && r.audit[|s.audit|].key == op.key
    ensures r.audit[|s.audit|].timestamp == op.now
    ensures op.SetOp? ==> r.audit[|s.audit|].value == Some(Payload(op.v))
    ensures op.TombstoneOp? ==> r.audit[|s.audit|].value == None
    ensures op.GetOp? ==> r.audit[|s.audit|].value == Get(s, op.user, op.key, op.t, op.now).value
    ensures |r.db.table| == |s.db.table| + (if IsWrite(op) then 1 else 0)
    ensures r.db.table[..|s.db.table|] == s.db.table
    ensures ValidStore(s) ==> ValidStore(r)
  {
    match op
    case SetOp(user, key, v, time, now) => Set(s, user, key, v, time, now)
    case GetOp(user, key, t, now) => Get(s, user, key, t, now).store
    case TombstoneOp(user, key, now) => Tombstone(s, user, key, now)
  }

  /** Performs the calls one after the other, in order. */
  function Run(s: Store, ops: seq<Op>): Store
    decreases |ops|
  {
    if |ops| == 0 then s else Apply(Run(s, ops[..|ops| - 1]), ops[|ops| - 1])
  }

  /** The number of writes among the calls. */
  function Writes(ops: seq<Op>): nat
    decreases |ops|
  {
    if |ops| == 0 then 0
    else Writes(ops[..|ops| - 1]) + (if IsWrite(ops[|ops| - 1]) then 1 else 0)
  }

  /** The audit record `rec` reports the call `op`: its action, caller, key
      and clock time. */
  predicate Describes(rec: AuditRecord, op: Op)
  {
    rec.action == ActionOf(op) && rec.user == op.user && rec.key == op.key && rec.timestamp == op.now
  }

  /** After N calls the audit table has grown by exactly N records, the i-th
      new one reporting the i-th call, and the records that were there
      before are unchanged. */
  lemma {:induction false} RunAuditTrail(s: Store, ops: seq<Op>)
    ensures |Run(s, ops).audit| == |s.audit| + |ops|
    ensures Run(s, ops).audit[..|s.audit|] == s.audit
    ensures forall i :: 0 <= i < |ops| ==> Describes(Run(s, ops).audit[|s.audit| + i], ops[i])
    decreases |ops|
  {
    if |ops| > 0 {
      var init := ops[..|ops| - 1];
      RunAuditTrail(s, init);
      var mid := Run(s, init);
      var r := Run(s, ops);
      assert r == Apply(mid, ops[|ops| - 1]);
      assert r.audit[..|mid.audit|] == mid.audit;
      forall i | 0 <= i < |ops|
        ensures Describes(r.audit[|s.audit| + i], ops[i])
      {
        if i < |init| {
          assert r.audit[|s.audit| + i] == mid.audit[|s.audit| + i];
          assert ops[i] == init[i];
        }
      }
    }
  }

  /** The event table only grows: after a run the old records are still
      there, unchanged, followed by exactly one new record per write; and
      ids keep equal to positions. */
  lemma {:induction false} RunEventLog(s: Store, ops: seq<Op>)
    ensures |Run(s, ops).db.table| == |s.db.table| + Writes(ops)
    ensures Run(s, ops).db.table[..|s.db.table|] == s.db.table
    ensures ValidStore(s) ==> ValidStore(Run(s, ops))
    decreases |ops|
  {
    if |ops| > 0 {
      var init := ops[..|ops| - 1];
      RunEventLog(s, init);
      var mid := Run(s, init);
      assert Run(s, ops).db.table[..|mid.db.table|] == mid.db.table;
      assert mid.db.table[..|s.db.table|] == s.db.table;
    }
  }

  /** A store built by any sequence of calls from a new store has ids equal
      to positions and as many audit records as calls. */
  lemma Reachable(ops: seq<Op>)
    ensures ValidStore(Run(Init(), ops))
    ensures |Run(Init(), ops).audit| == |ops|
    ensures |Run(Init(), ops).db.table| == Writes(ops)
  {
    RunAuditTrail(Init(), ops);
    RunEventLog(Init(), ops);
  }
}
