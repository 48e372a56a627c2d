/** The `std::system_error` exceptions the archive code throws, as values. */
module Errors {

  /** The errno carried by each exception; `DirError` carries the code that
      `create_directories` reported through its `std::error_code`. */
  datatype Errno = EINVAL | ENOMEM | EACCES | EILSEQ | DirError(code: nat)

  /** Which throw site raised the error. */
  datatype Reason =
    | VectorTooSmall      // TOCItem decoding constructor
    | CantReadToc         // unpack: the archive could not be opened
    | CorruptArchive      // unpack: a per-file digest differs
    | CantCreateDirectory // unpack: create_directories failed
    | CantUnpackFile      // unpack: the output file could not be opened or written
    | FileTooLarge        // pack: fsize above a third of available memory
    | CantOpenFile        // pack: a source file could not be opened

  datatype Error = Error(errno: Errno, reason: Reason)

  datatype Option<+T> = None | Some(value: T)

  datatype Result<+T> = Ok(value: T) | Err(error: Error)
}
