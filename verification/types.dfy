/**
  Shared vocabulary of the session pool: the answers of the remote backend
  (modelled as oracles passed in by the caller), the errors the pool reports,
  the log of remote calls an operation issues, and the clock.
 */
module Types {

  /** The text of an error produced by the remote backend or the auth layer. */
  type Cause = string

  /** A point in time, in nanoseconds counted from Go's zero `time.Time`. */
  type Time = int

  /** The zero `time.Time`, which a freshly inserted in-use record carries. */
  const ZeroTime: Time := 0

  /** One minute, as a `time.Duration` in nanoseconds. */
  const Minute: int := 60 * 1_000_000_000

  /** How long a released session may idle before it is discarded: 45 minutes. */
  const IdleTimeout: int := 45 * Minute

  /** Bounds of Go's `time.Duration`, a signed 64-bit count of nanoseconds. */
  const MaxDuration: int := 0x7fff_ffff_ffff_ffff
  const MinDuration: int := -0x8000_0000_0000_0000

  datatype Option<+T> = None | Some(value: T)

  /** The answer of a remote step that yields no value: building the
      authenticated service (`newSpanner`) or deleting a session. */
  datatype Ack = Done | Refused(cause: Cause)

  /** The answer of the remote `Create` call: the name the backend assigned. */
  datatype Created = Named(name: string) | CreateRefused(cause: Cause)

  /** What the backend would answer if the operation asked it. */
  datatype Backend = Backend(service: Ack, create: Created)

  /** A remote call an operation issues, in order. */
  datatype Call = InitService | CreateSession(database: string) | DeleteSession(name: string)

  /** The errors the pool returns. */
  datatype Error =
    | ServiceInitFailed(cause: Cause)    // wrapped as "unable to init spanner service"
    | SessionCreateFailed(cause: Cause)  // wrapped as "unable to init spanner session"
    | AllInUse(count: int)               // "all %d sessions are in use. ..."
    | DeleteFailed(cause: Cause)         // a delete error, returned as is by Close

  datatype Outcome<+T> = Ok(value: T) | Err(error: Error)

  /** `t.Sub(u)`: the elapsed duration, saturated to the `time.Duration` range. */
  function Sub(t: Time, u: Time): (d: int)
    ensures MinDuration <= d <= MaxDuration
    ensures MinDuration <= t - u <= MaxDuration ==> d == t - u
  {
    if t - u > MaxDuration then MaxDuration
    else if t - u < MinDuration then MinDuration
    else t - u
  }

  /** Saturation never changes a comparison against a representable bound
      below the maximum, so `Sub(t, u) > x` means exactly `t - u > x`. */
  lemma SubKeepsComparison(t: Time, u: Time, x: int)
    requires MinDuration <= x < MaxDuration
    ensures Sub(t, u) > x <==> t - u > x
  {
  }
}
