/** The optional value used for results that the Java code signals by
    throwing: `None` stands for the exception. */
module Wrappers {

  datatype Option<T> = None | Some(value: T)
}
