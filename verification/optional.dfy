/** The absent-or-present wrapper used for the manager's pointers that may be NULL. */
module Optional {

  /** `None` stands for a NULL pointer (never allocated, or freed); `Some(v)` for allocated storage holding `v`. */
  datatype Option<+T> = None | Some(value: T)
}
