/** The ways a jstore operation can fail, and the result and option types
    that carry them. */
module Errors {

  /** Failures raised by the container code or by the library calls it makes. */
  datatype Error =
    | NotFound             // the container directory does not exist
    | UnknownMode          // the reader mode is neither "disk" nor "memory"
    | MissingFile(name: string) // opening `header` or `data` for reading fails
    | CorruptIndex         // the header size is not a multiple of the field width
    | IndexOutOfRange      // an entry index outside the arrays
    | EntryTooLarge        // a payload whose length does not fit 32 bits

  datatype Result<+T> = Ok(value: T) | Err(error: Error)

  datatype Option<+T> = None | Some(value: T)
}
