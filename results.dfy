/** Failure-carrying values used where the harness raises an exception. */
module Results {

  datatype Option<+T> = None | Some(value: T)

  datatype Result<+T, +E> = Ok(value: T) | Err(error: E)

  /** The exceptions `evaluate_model` can raise before it reaches a verdict. */
  datatype HarnessError =
    | EmptyTestData                  // `ValueError`: the test data list is empty
    | MissingMarker(record: string)  // `IndexError`: a record has no `,output:` to split on
    | NoInputOutputPairs             // `ValueError`: no record yielded a pair
}
