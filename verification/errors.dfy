/** The library's exception classes, and a result type that carries them. */
module Errors {

  datatype Error =
    | FilesystemException   // missing root, missing file or directory, bad create/remove target
    | ResourceException     // unreadable handle, empty delimiter, use after close
    | NotFound              // Collection lookup of a path no member has
    | EmptyCollection       // first/last of an empty Collection

  datatype Result<T> = Ok(value: T) | Err(error: Error)

  datatype Outcome = Pass | Fail(error: Error)

  datatype Option<T> = None | Some(value: T)
}
