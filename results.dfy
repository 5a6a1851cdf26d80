/** Error kinds and the result wrappers shared by the filesystem and the repository code. */
module Results {

  /** The kinds of failure the library distinguishes. Messages are not modelled. */
  datatype Error =
    | NotARepository          // `build` without `force` on a worktree whose `.git` is not a directory
    | NotADirectory           // a path that must be a directory exists as something else
    | DirectoryNotEmpty       // `repo_create` over a `.git` that already has entries
    | Io                      // an operating-system call failed
    | Overflow                // an index computation left its range: an overflow check or a slice-bounds check fails
    | Panicked(cause: Error)  // `unwrap` reached an error: the process would abort here

  /** What an `unwrap` of a failed call turns into; a panic stays the same panic. */
  function Unwrapped(e: Error): (p: Error)
    ensures p.Panicked?
    ensures e.Panicked? ==> p == e
    ensures !e.Panicked? ==> p.cause == e
  {
    if e.Panicked? then e else Panicked(e)
  }

  datatype Option<+T> = None | Some(value: T)

  datatype Result<+T> = Ok(value: T) | Err(error: Error)
}
