/** Instants and durations are whole nanoseconds, as in Go's time package. */
module Clock {

  /** The value of a column or field that may be missing. */
  datatype Option<+T> = None | Some(value: T)

  const SECOND: int := 1_000_000_000

  /** What SQLite's CURRENT_TIMESTAMP keeps of an instant: whole seconds. */
  function ToSecond(t: int): (r: int)
    ensures r <= t < r + SECOND
    ensures r % SECOND == 0
  {
    t - t % SECOND
  }

  function Max(a: int, b: int): int {
    if a < b then b else a
  }

  function Min(a: int, b: int): int {
    if a < b then a else b
  }
}
