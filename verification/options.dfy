/** Python's `None` against a present value. */
module Options {

  datatype Option<T> = None | Some(value: T)

  /** `entry.get(key, fallback)` for a key that is present (`Some`) or missing (`None`). */
  function ValueOr<T>(o: Option<T>, fallback: T): T {
    if o.Some? then o.value else fallback
  }
}
