/** Results of operations that can fail, with the driver's error strings and the VFS error codes. */
module Outcome {

  datatype Result<+T, +E> = Ok(value: T) | Err(error: E)

  datatype Option<+T> = None | Some(value: T)

  datatype FatError =
    | NoFreeClusters
    | BufferTooSmall
    | PathNotFound
    | NotADirectory
    | InvalidPath
    | ParentNotADirectory
    | InvalidEntryOffset
    | OutOfBounds  // the slice index that panics when a directory has to grow by more than one cluster

  datatype VfsError =
    | NotFound
    | AlreadyExists
    | NotADirectoryError
    | IsADirectory
    | NotEmpty
    | InvalidPathError
    | PermissionDenied
    | IoError
    | Panicked  // no error code: the kernel stops at an index out of bounds
}
