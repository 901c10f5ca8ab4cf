/** A nullable cell of a data frame: `None` stands for pandas' NaN / NaT. */
module Wrappers {

  datatype Option<+T> = None | Some(value: T)

}
