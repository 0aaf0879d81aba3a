/** The optional value used where the source answers with "nothing" (a skipped line). */
module Wrappers {

  datatype Option<+T> = None | Some(value: T)
}
