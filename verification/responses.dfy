/** The response envelope every endpoint returns: a success flag, the payload, a
    message, and on failure an error detail repeating the message with a return code. */
module Responses {
  import opened Wrappers

  datatype ErrorDetail = ErrorDetail(message: Option<string>, returnCode: int)

  datatype ApiResponse<T> = ApiResponse(
    success: bool,
    data: Option<T>,
    message: Option<string>,
    error: Option<ErrorDetail>)

  /** The shape both constructors guarantee: an error detail exactly when the flag is
      false, and then no payload and the same message in the detail as at the top. */
  predicate Consistent<T>(r: ApiResponse<T>) {
    && (r.error.Some? <==> !r.success)
    && (r.error.Some? ==> r.data.None? && r.error.value.message == r.message)
  }

  /** `ApiResponse.success(data, message)`. */
  function Succeeded<T>(data: Option<T>, message: Option<string>): (r: ApiResponse<T>)
    ensures Consistent(r) && r.success
    ensures r.data == data && r.message == message
  {
    ApiResponse(true, data, message, None)
  }

  /** `ApiResponse.error(message, returnCode)`: no payload. */
  function Failed<T>(message: Option<string>, returnCode: int): (r: ApiResponse<T>)
    ensures Consistent(r) && !r.success
    ensures r.message == message && r.error == Some(ErrorDetail(message, returnCode))
  {
    ApiResponse(false, None, message, Some(ErrorDetail(message, returnCode)))
  }

  /** Conversely, every consistent envelope is the result of one of the two
      constructors, chosen by its flag. */
  lemma ConsistentIsConstructed<T>(r: ApiResponse<T>)
    requires Consistent(r)
    ensures r.success ==> r == Succeeded(r.data, r.message)
    ensures !r.success ==> r == Failed<T>(r.message, r.error.value.returnCode)
  {
  }
}
