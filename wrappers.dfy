/** Optional values and the outcomes of operations that can fail. */
module Wrappers {

  /** A value that may be missing (Ruby's nil). */
  datatype Option<+T> = None | Some(value: T)

  /** The value of an operation that returns something or raises. */
  datatype Result<+T, +E> = Success(value: T) | Failure(error: E)

  /** The outcome of an operation that returns nothing or raises. */
  datatype Outcome<+E> = Pass | Fail(error: E)
}

/** The conditions the reference store raises, one constructor per kind. */
module Errors {

  /** Why a branch operation refused to act. */
  datatype BranchProblem =
    | NotAValidName     // the name fails the reference-name check
    | AlreadyExists     // create_branch found the branch file
    | NotFound          // delete_branch found no value to delete
    | UpstreamMissing   // long_name found no file under any candidate root

  datatype Error =
    | LockDenied                         // Lockfile: the marker is already held
    | MissingParent                      // Lockfile: the target's directory does not exist
    | IsDirectory                        // committing onto a path that is a directory
    | NotADirectory                      // mkdir_p met a file where a directory belongs
    | StaleValue                         // compare_and_swap saw a different value
    | InvalidBranch(problem: BranchProblem)
    | SymrefLoop                         // a symbolic chain came back to a hop it had followed
}
