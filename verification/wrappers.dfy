/** The optional-value datatype shared by the lock registry and the backup snapshot. */
module Wrappers {

  /** A value that may be absent: a parent directory `cdUp` could not reach,
      a lock file that does not exist, a path that leads nowhere. */
  datatype Option<+T> = None | Some(value: T)
}
