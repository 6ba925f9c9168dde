/** The errors the core can return, one constructor per distinct `error` value of the source. */
module Errors {
  import opened GoStrings

  datatype Error =
    | StatFailed(path: GoString)                       // fs.Stat could not find or read the path
    | ReadDirFailed(path: GoString)                    // fs.ReadDir could not list the directory
    | EntryFailed(cause: Error)                        // "failed to get entry: %w"
    | InvalidDirectory                                 // "invalid directory referenced"
    | InvalidEntry                                     // "invalid entry referenced"
    | WriteFailed                                      // the response writer refused the rendered page
    | MaskParseFailed(cause: Error)                    // "failed to parse path mask: %w"
}
