/**
 * Absent-or-present values: a database node or field that may be missing,
 * a snapshot that may be null.
 */
module Optional {

  datatype Option<T> = None | Some(value: T) {

    /** The present value, falling back to `fallback` for a missing one. */
    function ValueOr(fallback: T): T {
      if Some? then value else fallback
    }
  }
}
