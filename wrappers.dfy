/** Option and Result, the two failure-carrying datatypes the model uses. */
module Wrappers {

  datatype Option<+T> = None | Some(value: T)

  datatype Result<+R, +E> = Success(value: R) | Failure(error: E)
}

/**
 * Events after which the C++ program no longer returns normally: an exception thrown by
 * std::stoi, or a read past the end of a std::string (undefined behaviour). An exception
 * that escapes a worker task terminates the server process.
 */
module Faults {

  datatype Fault =
    | StoiInvalidArgument   // std::stoi found no digits
    | StoiOutOfRange        // std::stoi's value does not fit in an int
    | ReadPastEnd           // a '%' is the last byte of a form body
}
