/** Option and error results used where the C# code returns null or throws. */
module Outcomes {

  /** A value that may be absent (a C# `null` result). */
  datatype Option<T> = None | Some(value: T)

  /** The exceptions the service layer raises, by cause. */
  datatype Error =
    | KeyNotFound             // Dictionary indexer on a missing key
    | DuplicateKey            // Dictionary.Add on a key already present
    | MountNotFound           // MountService.Get on a missing record
    | UserNotFound            // BurnService.StartBurn on a missing user
    | InvalidMountState       // a mount in a state the operation refuses
    | DirectoryNotFound       // Directory.GetFiles / File.WriteAllText on a missing directory
    | FileAlreadyExists       // ZipFile.CreateFromDirectory onto an existing archive
    | ExternalFailure         // an exception from remote storage, zip or file I/O

  /** The result of an operation that returns a value or throws. */
  datatype Result<T> = Ok(value: T) | Err(error: Error)

  /** The result of an operation that returns nothing or throws. */
  datatype Outcome = Completed | Threw(error: Error)
}
