/** Option, Result and the error kinds the storage engine raises (asciii's
    `StorageError` enum, plus `Io` for every `std::io::Error` it propagates with `?`). */
module Errors {

  datatype Option<+T> = None | Some(value: T) {
    /** `Option::unwrap_or` */
    function GetOr(default: T): T {
      match this
      case Some(v) => v
      case None => default
    }
  }

  datatype StorageError =
    | FaultyConfig(key: string)
    | StoragePathNotAbsolute
    | InvalidDirStructure
    | TemplateNotFound
    | ProjectDirExists
    | ProjectFileExists
    | ProjectDoesNotExist
    | NoWorkingDir
    | BadChoice
    | BadProjectFileName
    | GitProcessFailed
    | RepoUninitialized
    | NothingFound(terms: seq<string>)
    | Io

  /** `Result<T, anyhow::Error>` whose error is one of the kinds above. */
  datatype Result<+T> = Ok(value: T) | Err(error: StorageError)
}
