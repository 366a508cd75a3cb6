/** Optional values, and the ways a call of the library can end. */
module Outcomes {

  datatype Option<+T> = None | Some(value: T)

  datatype Failure =
    | NoPimpl            // "CommPP does not have a PIMPL.", "RuntimeView is null", ...
    | NullWithSize       // a view of a null pointer with a non-zero size
    | BufferTooSmall     // "The provided buffer is not large enough..."
    | OutOfRange         // std::out_of_range
    | ShortArchive       // the archive ran out of bytes
    | IntOverflow        // a signed running total left the range of int, or an allocation went negative
    | OverRead           // bytes past the end of a buffer were read
    | MpiNullComm        // MPI was called on MPI_COMM_NULL
    | MpiCount           // a negative count, or a root that is no rank, was handed to MPI

  datatype Outcome<+T> = Returned(value: T) | Failed(why: Failure)
}
