/** A value that may be missing: a blank spreadsheet cell, or the side of an
    outer join on which a reference does not occur (pandas shows both as NaN). */
module Nullable {

  datatype Option<+T> = None | Some(value: T)
}
