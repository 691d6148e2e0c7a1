/** Failure-carrying results shared by both registries. A .NET `null` return
    becomes `None`; a thrown exception becomes `Err`. */
module Wrappers {

  /** The reference-or-null results of the registries. */
  datatype Option<+T> = None | Some(value: T)

  /** The exceptions the registries throw, one constructor per kind. */
  datatype Error =
    | AlreadyPinned(name: string)          // InvalidOperationException from Pin*
    | KeyNotFound(key: string)             // KeyNotFoundException from an indexer or GetItem
    | ArgumentNull(parameter: string)      // ArgumentNullException from PackageIdentifier
    | MoreThanOneMatch                     // InvalidOperationException from SingleOrDefault

  /** Either a value or the exception that replaced it. */
  datatype Result<+T> = Ok(value: T) | Err(error: Error)

  /** A `void` operation that either completes or throws. */
  datatype Outcome = Pass | Fail(error: Error)
}
