/** Shared vocabulary of the time-travel key-value store: keys, instants and
    stored values, plus the Option type used for "no value". */
module Values {

  /** Some/None, standing for a Python value that may be `None`. */
  datatype Option<+T> = None | Some(value: T)

  /** Keys are opaque identifiers compared for equality only. */
  type Key = int

  /** Instants (business and system timestamps) as integers; a larger number
      is a later instant. */
  type Time = int

  /** A stored value: a caller payload or the tombstone marker. The tag keeps
      a tombstone distinct from every payload. */
  datatype Val = Payload(n: int) | Tombstoned

  /** The business timestamp a write receives: the caller's time when one is
      given, the clock reading otherwise. */
  function EffectiveTime(time: Option<Time>, now: Time): Time
  {
    match time
    case Some(t) => t
    case None => now
  }
}
