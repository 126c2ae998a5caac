/** A value that may be absent: C#'s `null` reference or an empty `int?`. */
module Nullable {

  datatype Nullable<+T> = Null | NonNull(value: T)
}
