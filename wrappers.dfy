/** Failure-carrying results shared by every module of the model. The error
    kinds are the exceptions the library and the drivers throw or raise. */
module Wrappers {

  datatype Option<T> = None | Some(value: T)

  datatype Error =
    | IndexError                     // Python's IndexError (numpy indexing)
    | InvalidArgument(msg: string)   // std::invalid_argument (also from std::stoul)
    | OutOfRange(msg: string)        // std::out_of_range (from std::stoul)
    | RuntimeError(msg: string)      // std::runtime_error
    | IOException(msg: string)       // sipl::IOException
    | NetpbmIOException(msg: string) // sipl::NetpbmIOException
    | AssertionFailure(msg: string)  // a failed assert(), which aborts the program

  datatype Result<T> = Success(value: T) | Failure(error: Error)
}
