/** The outcome of an operation that can raise in `rnnlm.py`. */
module Results {

  datatype Result<+T, +E> = Success(value: T) | Failure(error: E)
}
