/** The optional value used where the tree code leaves a variable unassigned. */
module Wrappers {

  /** `None` stands for "never assigned"; `Some(v)` for an assigned value. */
  datatype Option<+T> = None | Some(value: T)
}
