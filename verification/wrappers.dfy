/** Failure-carrying datatypes for Kotlin's nullable values (`T?`) and
    Arrow's `Either<L, R>`. */
module Wrappers {

  /** A Kotlin nullable value: `None` stands for `null`. */
  datatype Option<+T> = None | Some(value: T)

  /** Arrow's `Either`: `Left` carries the failure, `Right` the success. */
  datatype Either<+L, +R> = Left(left: L) | Right(right: R)
}
