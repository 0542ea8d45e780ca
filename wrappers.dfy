/** Option type shared by the table, the ETL stage and the query stage. */
module Wrappers {
  datatype Option<+T> = None | Some(value: T)
}
