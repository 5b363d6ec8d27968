/** The optional value used for nullable columns (a donor's last donation date)
    and for lookups that may miss. */
module Wrappers {

  datatype Option<+T> = None | Some(value: T)
}
