/** Option and Result wrappers shared by every module of the model. */
module Wrappers {

  /** A value that may be missing: a JavaScript `null`/`undefined` or a lookup miss. */
  datatype Option<+T> = None | Some(value: T)

  /** The outcome of an operation that can be rejected. */
  datatype Result<+T, +E> = Success(value: T) | Failure(error: E)
}

/** Identifiers and time, as the server and the client see them. */
module Identity {

  /** An opaque identifier: a user's ObjectId, a message's ObjectId or a socket id.
      The empty string stands for every JavaScript-falsy value a payload field can
      hold (`undefined`, `null`, `""`), so `!x` in the source is `x == ""` here. */
  type Id = string

  /** A timestamp; the clock is a parameter of every operation that reads it. */
  type Time = nat
}
