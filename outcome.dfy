/**
 * Results of the bit queue operations. Where the C code returns -1 and sets
 * errno, the model returns `Err` with the errno value; a successful call
 * returns `Ok` with the value the C function returns.
 */
module Outcomes {

  /** The errno values the bit queue sets. */
  datatype Errno =
    | EInval    // an invalid argument, or a released queue
    | EMsgSize  // the request does not fit the destination
    | EAgain    // not enough data (read) or free space (write) right now

  datatype Outcome = Ok(value: nat) | Err(errno: Errno)
}
