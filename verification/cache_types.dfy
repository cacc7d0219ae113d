/** Result shapes shared by every cache variant. */
module CacheTypes {

  /** A lookup answer: `None` is the Java `null` ("not found") of the generic caches. */
  datatype Option<+T> = None | Some(value: T)

  /** Construction either yields a cache or fails with the message of the
      `IllegalArgumentException` the constructor throws. */
  datatype Result<+T> = Success(value: T) | Failure(message: string)
}
