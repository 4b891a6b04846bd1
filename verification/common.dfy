/** Types shared by every repository: identifiers, times, optional values and the
    single error kind a repository raises. */
module Common {

  /** A store-assigned document identifier. The store hands them out in ascending
      order, so ascending identifiers are the order documents were inserted in. */
  type Id = nat

  /** A point in time, in milliseconds. */
  type Time = int

  datatype Option<+T> = None | Some(value: T)

  /** What a repository throws when the store call under it fails: the operation's
      own prefix followed by the store's message. */
  datatype DatabaseError = DatabaseError(message: string)

  /** The outcome of a repository call: a value, or the DatabaseError it throws. */
  datatype Result<+T> = Ok(value: T) | Err(error: DatabaseError)

  /** The DatabaseError a repository call throws for a store failure. */
  function Failed<T>(prefix: string, storeMessage: string): Result<T>
  {
    Err(DatabaseError(prefix + storeMessage))
  }
}
