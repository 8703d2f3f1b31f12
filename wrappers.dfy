/** Result and option types shared by the string-search kernels, and the
    exceptions the kernels can throw. */
module Wrappers {

  datatype Option<+T> = None | Some(value: T)

  /** The exceptions thrown by the modelled functions. */
  datatype Error =
    | IncorrectArguments            // an unknown character in a regexp match_type; thrown with no
                                    // error code, so named after its message text
    | BadArguments(id: int)         // a replacement names a capture the regexp does not have
    | NotImplemented                // position() with an escape char, a match_type or a collator

  datatype Result<+T> = Ok(value: T) | Err(error: Error)

  /** What the kernels ask of a TiDB collator: whether it compares case
      insensitively (`isCI`) and whether it is a binary collation
      (`isBinary`). A missing collator is `None`. */
  datatype Collator = Collator(caseInsensitive: bool, binary: bool)
}
