/** What the backend's operations return or raise, and the outside world
    they consult (a git subprocess, the disk), given as values. */
module Outcomes {

  datatype Option<T> = None | Some(value: T)

  datatype Result<T, E> = Success(value: T) | Failure(error: E)

  /** A check that either passes or raises. */
  datatype Outcome<E> = Pass | Fail(error: E)

  /** The Python exception an operation raises: its class and its text. */
  datatype Raised =
    | ValueError(message: string)
    | Exception(message: string)
    | IndexError(message: string)
    | HttpException(status: nat, detail: string)
    | GitCommandError(stderr: string)

  /** How a git command run with `check=True` (or through GitPython) ended. */
  datatype Run = Completed(stdout: string) | Failed(stderr: string)

  /** The file system as `os.path.exists` and `os.path.isdir` see it. */
  datatype Disk = Disk(files: set<string>, dirs: set<string>) {
    predicate Exists(path: string) { path in files || path in dirs }
    predicate IsDir(path: string) { path in dirs }
  }

  /** `os.path.join(a, b)` on POSIX: an absolute `b` replaces `a`. */
  function PathJoin(a: string, b: string): (p: string)
    ensures b != [] && b[0] == '/' ==> p == b
    ensures |b| <= |p| && p[|p| - |b|..] == b
  {
    if b != [] && b[0] == '/' then b
    else if a == [] || a[|a| - 1] == '/' then a + b
    else a + "/" + b
  }
}
