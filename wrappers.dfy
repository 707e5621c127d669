/** Optional values and results with an error, the shapes the C++ code gives
    with std::optional and with a thrown exception. */
module Wrappers {

  datatype Option<+T> = None | Some(value: T)

  /** `Failure` stands for a C++ exception leaving the call. */
  datatype Result<+T, +E> = Success(value: T) | Failure(error: E)

  /** A nonempty sequence is its first element followed by the rest. */
  lemma HeadTail<T>(s: seq<T>)
    requires s != []
    ensures [s[0]] + s[1..] == s
  {
  }
}
