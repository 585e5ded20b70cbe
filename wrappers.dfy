/** Optional values and results with an error, used for the absent images
    and for the decoders that read the wire text back. */
module Wrappers {

  datatype Option<+T> = None | Some(value: T)

  datatype Result<+T, +E> = Success(value: T) | Failure(error: E)
}
