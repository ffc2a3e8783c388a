/** Rows of the three tables, the reaction enumeration and the failure values
    raised by the repositories and the post service. */
module Schema {

  datatype Option<+T> = None | Some(value: T)

  datatype Result<+T, +E> = Ok(value: T) | Err(error: E)

  /** Success, or the exception an operation raises. */
  datatype Outcome<+E> = Pass | Fail(error: E)

  /** Identifiers are database-generated UUIDs; only equality and freshness matter. */
  type UserId = nat
  type PostId = nat

  /** The action enumeration, stored as the text LIKE or DISLIKE. */
  datatype Action = Like | Dislike

  /** A row of the user table. The password is already hashed; the email is nullable. */
  datatype User = User(username: string, password: string, email: Option<string>)

  /** The registration form a new user row is built from. */
  datatype RegistrationForm = RegistrationForm(username: string, password: string, email: Option<string>)

  /** A row of the post table (also the shape of the post schema handed to the repository). */
  datatype Post = Post(body: string, author: UserId)

  /** A row of the post_action table; all three fields form the primary key. */
  datatype PostAction = PostAction(user: UserId, post: PostId, action: Action)

  /** Failures that reach the caller of a repository:
      DbError is the repository's own exception, raised where it catches a
      constraint violation; IntegrityError is the store's constraint violation
      on a DELETE statement the repository does not guard (a row still
      referenced by a foreign key). */
  datatype StoreError = DbError | IntegrityError

  /** The post service's exceptions, plus a store failure passed through unchanged. */
  datatype ServiceError =
    | NotPermissionsError
    | NoPostError
    | NoUserError
    | ActionDuplicateError
    | Store(cause: StoreError)
}
