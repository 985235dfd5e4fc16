/** The optional value used for the nullable `published_date` column. */
module Wrappers {

  /** `None` stands for SQL NULL; `Some(v)` for a stored value `v`. */
  datatype Option<+T> = None | Some(value: T)
}
