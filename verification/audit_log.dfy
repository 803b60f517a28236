/** The append-only audit table (`AuditLogDB`): one record per facade call
    saying who did what to which key, with which value, and when. It is
    written and never consulted by the store's queries. */
module AuditLogDB {
  import opened Values

  /** The three actions the facade reports ("set", "get", "tombstone"). */
  datatype Action = SetAction | GetAction | TombstoneAction

  /** `user` is the caller's name; `value` is absent for a tombstone and for
      a get that found nothing. */
  datatype AuditRecord = AuditRecord(user: string, action: Action, key: Key, value: Option<Val>, timestamp: Time)

  type AuditLog = seq<AuditRecord>

  /** `log(user, action, key, value)`: appends one record stamped with the
      clock reading `now`; the records already there are untouched. */
  function Log(audit: AuditLog, user: string, action: Action, key: Key, value: Option<Val>, now: Time): (r: AuditLog)
    ensures |r| == |audit| + 1
    ensures r[..|audit|] == audit
    ensures r[|audit|].user == user && r[|audit|].action == action && r[|audit|].key == key
    ensures r[|audit|].value == value && r[|audit|].timestamp == now
  {
    audit + [AuditRecord(user, action, key, value, now)]
  }
}
