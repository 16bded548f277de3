/** The exceptions raised by the changelog command, and the failure-compatible
    Option and Result types that carry them. */
module Failures {

  datatype Option<T> = None | Some(value: T)

  /** Every way the command can stop without printing a changelog. */
  datatype Error =
      /** `InvalidFragment(path, msg)`: a badly named fragment file or an unknown change type. */
    | InvalidFragment(path: string, message: string)
      /** `DistutilsOptionError`: a patch bucket configured without a minor bucket. */
    | OptionError(message: string)
      /** `AttributeError`: a change-type option left unset (`None` has no `strip`). */
    | UnsetOption
      /** `ValueError` from `key, value = line.split('=', 1)` on a line without `=`. */
    | NotEnoughValues(line: string)
      /** `RuntimeError`: the project version is not `major.minor[.patch]`. */
    | VersionError(version: string)
      /** `AssertionError`: `changelog_fragments_path` was never set. */
    | MissingFragmentsPath
      /** `AssertionError`: no fragment, so no next version was computed. */
    | MissingNextVersion
      /** `KeyError` looking up a section title in `all_changes_types`. */
    | MissingTitle(changeType: string)
      /** `TypeError`/`ValueError` from `issue_tracker % issue_number`. */
    | FormatError(template: string)

  datatype Result<T> = Ok(value: T) | Err(error: Error) {
    predicate IsFailure() {
      Err?
    }

    function PropagateFailure<U>(): Result<U>
      requires Err?
    {
      Err(error)
    }

    function Extract(): T
      requires Ok?
    {
      value
    }
  }
}
