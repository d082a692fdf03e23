/** Times are nanoseconds; the database stores whole seconds. */
module Clock {

  const SECOND: int := 1_000_000_000

  /** `Time.Unix`: whole seconds, rounded down. */
  function Unix(ns: int): (seconds: int)
    ensures seconds * 1_000_000_000 <= ns < (seconds + 1) * 1_000_000_000
  {
    ns / SECOND
  }
}
