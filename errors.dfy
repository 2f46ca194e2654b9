/** The errors the work-item core can return, and the identities handed to it. */
module Errors {

  datatype Error =
    | ErrNoRows                        // sql.ErrNoRows: no row matched a lookup or an existence check
    | ErrRepository(name: string)      // whatever the repository lookup reported for this name
    | ErrUserNotFound                  // proto.ErrUserNotFound: no user in the request context
    | ErrNotOpen                       // "merge request is not open"
    | ErrOpenRepository                // "failed to open repository: ..."
    | ErrSourceBranch(branch: string)  // "source branch %q does not exist"
    | ErrTargetBranch(branch: string)  // "target branch %q does not exist"
    | ErrCheckout                      // "failed to merge: failed to checkout target branch: ..."
    | ErrMergeBranches                 // "failed to merge: failed to merge branches: ..."
    | ErrInvalidState(filter: string)  // "invalid state: %s (must be one of: ...)"
}

/** The repository and user records the backend receives from its collaborators. */
module Proto {

  /** A resolved repository; only its database id matters to the core. */
  datatype Repo = Repo(id: int)

  /** The user found in the request context. */
  datatype User = User(id: int, username: string)
}
