/** Optional values and the typed failures the services raise. */
module Results {

  /** A Java `Optional<T>`, or a reference that may be null. */
  datatype Option<T> = None | Some(value: T)

  /** The argument an `Assert.notNull` guard names in its message. */
  datatype Arg = UserIdArg | PostIdArg | PageableArg

  /** The entity a `NotFoundException` is about. */
  datatype Entity = UserEntity | PostEntity

  /** The exceptions the services throw, one constructor per exception class. */
  datatype Error =
    | IllegalArgument(arg: Arg)       // IllegalArgumentException from Assert.notNull
    | NotFound(entity: Entity)        // NotFoundException
    | AlreadyExists                   // UserAlreadyExistsException
    | AuthenticationFailed            // AuthenticationFailedException
    | UsernameNotFound                // UsernameNotFoundException

  /** A value returned normally, or the exception thrown instead. */
  datatype Result<T> = Ok(value: T) | Err(error: Error)
}
