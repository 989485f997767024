/** Outcomes of the library's operations: a value, a returned error, or a panic. */
module Errors {

  /** The error kinds the modelled core can return. */
  datatype DecompressError =
    | PathNotRelative(path: string)   // an archive path with a root (and, on Windows, a drive)
    | Io(message: string)             // a failure reported by the tar reader
    | Error(message: string)          // a failure reported by the unrar library

  /** Rust's `Result<T, DecompressError>`, plus `Abort` for a panic
      (`unreachable!()`, `todo!()`), which ends the whole call. */
  datatype Outcome<T> = Ok(value: T) | Err(error: DecompressError) | Abort(reason: string)

  /** One item produced by an external archive reader: either decoded, or a read error. */
  datatype Decoded<T> = Decoded(item: T) | Corrupt(message: string)

  const Unreachable: string := "internal error: entered unreachable code"
  const UnsupportedEntryType: string := "not yet implemented: Unsupported entry type"
  const StripNotSupported: string := "not yet implemented: Stripping path components not supported"
}
