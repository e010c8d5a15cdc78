/** What a handler sends back: a status with a JSON payload or message, or nothing at all. */
module Http {
  import opened Wrappers

  datatype Reply<T> =
    | Success(status: int, payload: T)
      /** A 4xx/5xx answer; `error` is the `error` field some catch blocks add. */
    | Failure(status: int, message: string, error: Option<string>)
      /** An exception thrown where no handler catches it: the request gets no answer. */
    | Crash
  {
    predicate Answers(code: int) {
      (Success? && status == code) || (Failure? && status == code)
    }
  }

  function Fail<T>(status: int, message: string): Reply<T> {
    Failure(status, message, None)
  }

  /** A string field of a request body that JavaScript treats as truthy: present and not empty. */
  predicate Given(field: Option<string>) {
    field.Some? && field.value != ""
  }

  /** A numeric field of a request body that JavaScript treats as truthy: present and not zero. */
  predicate GivenNumber(field: Option<int>) {
    field.Some? && field.value != 0
  }
}
