/**
 * Failure-compatible wrappers shared by every module, and the error
 * taxonomy of the installer: every `throw` in the modelled code becomes
 * one `Err` value here.
 */
module Outcomes {

  datatype Option<+T> = None | Some(value: T)

  /** Reasons an operation of the installer fails. */
  datatype Error =
    | InvalidRange(range: string)   // the configured version range does not parse
    | FetchFailed                   // the registry answered with a non-success status
    | NoCompatibleVersion           // no published tag satisfies the configured range
    | NoCompatibleAsset             // the selector's index names no asset
    | AlreadyInstalled              // the reuse prompt was dismissed
    | DownloadFailed                // the archive transfer failed or was cancelled
    | ExtractFailed                 // the archive could not be unpacked
    | ExecutableNotFound            // no extracted file carries the executable's name
    | NoVersion                     // the version parser returned nothing
    | InvalidVersion                // a version text is not a valid range (loose, or strict when re-read)
    | NoMinimumVersion              // a range admits no version at all
    | NoVersionLine                 // `--version` output lacks the expected line
    | VendorVersion                 // a vendor build whose version cannot be compared

  datatype Result<+T> = Ok(value: T) | Err(error: Error) {

    predicate IsFailure() {
      Err?
    }

    function PropagateFailure<U>(): Result<U>
      requires Err?
    {
      Err(error)
    }

    function Extract(): T
      requires Ok?
    {
      value
    }
  }
}
