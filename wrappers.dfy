/** Failure-carrying datatypes shared by the codec modules. */
module Wrappers {

  datatype Option<+T> = None | Some(value: T)

  /** The exceptions the codec lets escape, by kind. */
  datatype Error =
    | TypeError(message: string)   // `dumps` called on something that is not a dict, or
                                    // `ast.literal_eval` meeting an unhashable key
    | DecodeError                   // a placeholder body that is not base64url of UTF-8
    | KeyError                      // the structure classifier answered neither list nor dict

  datatype Result<+T> = Success(value: T) | Failure(error: Error)

  /** A byte, as produced by `str.encode` and consumed by `bytes.decode`. */
  type byte = x: int | 0 <= x < 256
}
