/** Failure-carrying values shared by the release tooling model. */
module Wrappers {

  datatype Option<T> = None | Some(value: T)

  datatype Result<T, E> = Ok(value: T) | Err(error: E)

  /** The exceptions the release script raises on its own (git failures are not modelled). */
  datatype ReleaseError =
    | VersionNotFound                        // ValueError: no `version = "..."` in pyproject.toml
    | InvalidVersionFormat(current: string)  // ValueError: current version does not start with M.m.p
    | WorkingTreeNotClean                    // ValueError: `git status --porcelain` printed something
}
