/** The two ways the modelled code can raise, and the result type that carries them. */
module Errors {

  datatype Error =
    /** `image_names[idx]` with `idx` outside `[-n, n)`: Python's IndexError. */
    | IndexError(index: int)
    /** `np.random.randint(high)` with `high <= 0`: numpy's ValueError "high <= 0". */
    | EmptyRange(high: int)

  datatype Result<T> = Success(value: T) | Failure(error: Error)
}
