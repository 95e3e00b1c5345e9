/** Failure-carrying results shared by the whole model. Each exception the
    C# code can throw on a reachable path is one constructor of Exception. */
module Results {

  datatype Exception =
    | ArgumentException            // Triangle constructor, opposite-vertex/edge lookups
    | ArgumentOutOfRangeException  // Enumerable.Range with a negative count
    | InvalidOperationException    // Max/Min of no marks, First with no match
    | KeyNotFoundException         // dictionary lookup of a missing vertex
    | FuelExhausted                // the model's bound on the legalisation loop

  datatype Result<T> = Success(value: T) | Failure(error: Exception)

  datatype Outcome = Pass | Fail(error: Exception)

  datatype Option<T> = None | Some(value: T)
}
