/**
 * The two failures the lower layers raise: a lookup whose key has no entry
 * (MissingMappingException, carrying the offending key) and a malformed
 * template path (InvalidArgumentException).
 */
module Errors {

  datatype Error =
    | MissingMapping(key: string)
    | InvalidArgument(message: string)

  datatype Result<+T> = Ok(value: T) | Err(error: Error)
}
