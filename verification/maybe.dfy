/**
 The two ways a value can fail to be there: a key missing from a record that
 was read back from the store, and an operation the application refuses.
 */
module Maybe {

  /** A looked-up value: `None` when the key is not in the record. */
  datatype Option<T> = None | Some(value: T) {

    /** Python's `d.get(key, default)`: the value when present, else `default`. */
    function Or(default: T): T {
      if Some? then value else default
    }
  }

  /** The answer of an operation that validates its input: the new value,
      or the reason it was refused. */
  datatype Checked<T, E> = Accepted(value: T) | Refused(error: E)
}
