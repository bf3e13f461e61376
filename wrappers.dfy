/** Optional values, results and the error values the renderer and the
    argument loader can produce. A Go `error` is `Option<Error>`: `None` is nil. */
module Wrappers {

  datatype Option<+T> = None | Some(value: T)

  datatype Result<+R, +E> = Success(value: R) | Failure(error: E)

  /** Error values. The file-system kinds mirror `fs.ErrExist` and
      `fs.ErrNotExist`, which the renderer tests with `errors.Is`. */
  datatype Error =
    | Exist(path: string)            // fs.ErrExist
    | NotExist(path: string)         // fs.ErrNotExist
    | IsDirectory(path: string)      // a file operation on a directory
    | NotDirectory(path: string)     // a directory operation on a file
    | Fault(path: string)            // any other I/O failure of the file system
    | WalkFault(path: string)        // the source tree could not be traversed
    | ParseFault(name: string)       // text/template could not parse a template
    | ExecFault(name: string)        // text/template failed while executing
    | GitFailed(output: string)      // `git remote get-url origin` failed
    | UnknownProvider(output: string)// the remote is not a GitHub https URL
    | NoWorkingDir                   // os.Getwd failed
    | RemoteFault                    // the GitHub API call failed
}
