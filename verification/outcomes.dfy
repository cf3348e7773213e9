/** Failure-carrying datatypes shared by the transfer layer and the command line. */
module Outcomes {

  /** A value that may be missing: a Python `None` or a present value. */
  datatype Option<+T> = None | Some(value: T)

  /** Why a transfer raised instead of completing. */
  datatype TransferError =
    /** A local file (for an upload) or a remote key (for a download) does not exist. */
    | NotFound(path: string)

  /** The outcome of an operation that either completes with a value or raises. */
  datatype Result<+R> = Ok(value: R) | Err(error: TransferError)
}
