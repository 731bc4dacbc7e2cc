/** The optional value used where `split_sql_statements` uses `None` for "no open tag". */
module Wrappers {
  datatype Option<+T> = None | Some(value: T)
}
