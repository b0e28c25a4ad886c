/**
  Models/Result.cs: the success/failure wrapper. The record has a Value and a
  nullable ErrorMessage; Success is not stored but computed from the error
  text alone, so a failure built with an empty or null message still reports
  success.
*/
module Models {
  import opened Nullable
  import Text

  /** A Result<T>. `value == None` stands for the C# default of T?, which is
      what an object initializer leaves in a property it does not set. */
  datatype Result<T> = Result(value: Option<T>, errorMessage: Option<string>) {

    /** Success => string.IsNullOrEmpty(ErrorMessage). */
    predicate Success() {
      Text.IsNullOrEmpty(errorMessage)
    }
  }

  /** Result<T>.Ok(value): sets Value only. */
  function Ok<T>(value: T): (r: Result<T>)
    ensures r.Success()
    ensures r.value == Some(value) && r.errorMessage == None
  {
    Result(Some(value), None)
  }

  /** Result<T>.Fail(error): sets ErrorMessage only; the outcome reports
      failure exactly when the message is neither null nor empty. */
  function Fail<T>(error: Option<string>): (r: Result<T>)
    ensures r.Success() <==> error == None || error == Some("")
    ensures r.value == None && r.errorMessage == error
  {
    Result(None, error)
  }
}
