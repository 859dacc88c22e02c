module Wrappers {

  /** A value that may be missing: `null` or `undefined` on the client, a failed call in the probe. */
  datatype Option<+T> = None | Some(value: T)
}
