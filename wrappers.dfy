/** Small value types shared by the whole model. */
module Wrappers {

  datatype Option<+T> = None | Some(value: T)

  /** The .NET exceptions the tailing engine can raise or catch. */
  datatype Fault =
    | SeekBeforeBegin   // IOException: a seek to a negative absolute offset
    | StreamDisposed    // ObjectDisposedException: any seek on a closed stream
    | FileNotFound      // FileNotFoundException: opening a name that is not on disk
    | DuplicateKey      // ArgumentException from ImmutableDictionary.Add

  /** A value, or the exception that was thrown instead of returning it. */
  datatype Result<+T> = Success(value: T) | Failure(fault: Fault)
}
