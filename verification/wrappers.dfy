/** Small value wrappers shared by the modules of the model. */
module Wrappers {

  /**
   * A value that may be absent. `None` stands for JavaScript's `null` in a single
   * selection, for an optional function property the caller left out (`undefined`),
   * and for a result or pending value that is not there.
   */
  datatype Option<T> = None | Some(value: T)

  /** An optional property: `Undefined` stands for a property the caller left out. */
  datatype Maybe<T> = Undefined | Defined(value: T)

  /** What a selection handler decides: leave the selection alone, or commit a new one. */
  datatype Change<T> = Unchanged | Commit(next: T)
}
