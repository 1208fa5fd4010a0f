/** What several components share. */
module Common {
  datatype Option<T> = None | Some(value: T)
}

/** The lifecycle of a user. */
module Lifecycle {
  datatype UserStatus = Pending | Active | Inactive | Suspended | Merged
}
