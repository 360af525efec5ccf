/** Failure-carrying values shared by the copy model. */
module Results {

  /** An optional value, as Rust's `Option`. */
  datatype Option<+T> = None | Some(value: T)

  /** Why a run of the copy utility stopped. Each case carries the path it is about. */
  datatype CopyError =
    | InvalidDestination(path: string)     // several sources, destination not an existing directory
    | MalformedSourcePath(path: string)    // a source with no file-name component (a panic in the utility)
    | SourceUnreadable(path: string)       // the source could not be opened
    | DestinationUnwritable(path: string)  // the target could not be created or truncated
    | CopyIoError(path: string)            // reading the source failed part-way through the transfer

  /** A value or the error that prevented it. */
  datatype Result<+T> = Ok(value: T) | Err(error: CopyError)
}
