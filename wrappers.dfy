/** Option, the error outcomes and String.startsWith, shared by every module of the model. */
module Wrappers {

  /** A Java reference that may be null. */
  datatype Option<+T> = None | Some(value: T)

  /** Exceptions the engine raises or lets through, by their role in the sync. */
  datatype SyncError =
    | Inconsistent   // CMISException: triggers the fall-back to traversal
    | NotFound       // NotFoundException from the remote side
    | Conflict       // ConflictException re-thrown by create
    | StaleNode      // RepositoryException: access to a node already removed
    | NullPointer    // a null dereference the source does not guard
    | MissingParent  // CloudDriveException of the traversal: a listed item whose parent never appeared
    | NoProperty     // PathNotFoundException: a property read that was never written

  /** The outcome of an operation that returns nothing but can throw. */
  datatype Outcome = Pass | Fail(error: SyncError)

  /** The outcome of an operation that returns a value or throws. */
  datatype Result<+T> = Ok(value: T) | Err(error: SyncError)

  /** Java's String.startsWith. */
  predicate StartsWith(s: string, prefix: string) {
    prefix <= s
  }
}
