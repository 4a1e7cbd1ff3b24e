/** Small building blocks shared by every service model. */
module Options {

  /** A value that may be absent: a missing map key, a failed parse. */
  datatype Option<+T> = None | Some(value: T)
}

/** The JSON objects the three mutating services send back. */
module Replies {

  /**
   * `{"Message": text}`, `{"Error": text}`, and the rating service's
   * `{"Message": text, "Average Rating": average}`. The average is kept as an
   * exact rational rather than a floating-point number.
   */
  datatype Reply =
    | Message(text: string)
    | Error(text: string)
    | Rated(text: string, average: real)
  {
    predicate Succeeded() {
      !Error?
    }
  }

  /** What every service answers to an action it does not know. */
  const InvalidAction := "Invalid action specified."
}
