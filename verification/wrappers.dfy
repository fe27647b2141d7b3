/** Optional values, used for the JavaScript places where a lookup may find
    nothing (`undefined`) or a search may come back empty (`-1`). */
module Wrappers {

  /** `None` stands for an absent value (`undefined`), `Some(v)` for a present one. */
  datatype Option<+T> = None | Some(value: T)
}
