/** The optional value used for lookups that may find nothing (an SQL
    `fetchone()` that returns no row, a missing dictionary key). */
module Wrappers {

  datatype Option<+T> = None | Some(value: T)

}
