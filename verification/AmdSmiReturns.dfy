/** The status codes of the vendor library and of its wrapper that some caller tells apart. */
module AmdSmiReturns {
  datatype Return =
    | Success            // STATUS_SUCCESS
    | InsufficientSize   // STATUS_INSUFFICIENT_SIZE
    | OutOfResources     // STATUS_OUT_OF_RESOURCES
    | LibraryNotFound    // STATUS_LIBRARY_NOT_FOUND
    | FunctionNotFound   // STATUS_FUNCTION_NOT_FOUND
    | Other(code: int)
}
