/** The common response envelope `ApiResponse` and its factory functions. */
module ApiResponses {
  import opened Wrappers
  import opened Errors

  /**
   * `code`, `message` and the optional `data` of a response. The factories that never carry
   * data return `ApiResponse<()>`, the type every exception handler answers with.
   */
  datatype ApiResponse<T> = ApiResponse(code: ResultCode, message: string, data: Option<T>)

  /** `success(data)`: the SUCCESS code with its default message. */
  function SuccessWithData<T>(data: T): (r: ApiResponse<T>)
    ensures r.code == SUCCESS && r.message == SUCCESS.Message() && r.data == Some(data)
  {
    ApiResponse(SUCCESS, SUCCESS.Message(), Some(data))
  }

  /** `success(data, message)`: keeps both arguments. */
  function SuccessWithDataAndMessage<T>(data: T, message: string): (r: ApiResponse<T>)
    ensures r.code == SUCCESS && r.message == message && r.data == Some(data)
  {
    ApiResponse(SUCCESS, message, Some(data))
  }

  /** `success(message)`: no data; an omitted message is the SUCCESS code's own. */
  function SuccessWithMessage(message: Option<string>): (r: ApiResponse<()>)
    ensures r.code == SUCCESS && r.data.None?
    ensures message.Some? ==> r.message == message.value
    ensures message.None? ==> r.message == "성공"
  {
    ApiResponse(SUCCESS, message.GetOr(SUCCESS.Message()), None)
  }

  /** `failure(code, message)`: never carries data; an absent message falls back to the code's. */
  function Failure(code: ResultCode, message: Option<string>): (r: ApiResponse<()>)
    ensures r.code == code && r.data.None?
    ensures message.Some? ==> r.message == message.value
    ensures message.None? ==> r.message == code.Message()
  {
    ApiResponse(code, message.GetOr(code.Message()), None)
  }

  /** `badRequest(message)`: a BAD_REQUEST failure. */
  function BadRequest(message: Option<string>): (r: ApiResponse<()>)
    ensures r.code == BAD_REQUEST && r.data.None? && r.message == message.GetOr("잘못된 요청입니다")
  {
    Failure(BAD_REQUEST, message)
  }

  /** `notFound(message)`: a NOT_FOUND failure. */
  function NotFound(message: Option<string>): (r: ApiResponse<()>)
    ensures r.code == NOT_FOUND && r.data.None? && r.message == message.GetOr("리소스를 찾을 수 없습니다")
  {
    Failure(NOT_FOUND, message)
  }

  /** `internalServerError(message)`: an INTERNAL_SERVER_ERROR failure. */
  function InternalServerError(message: Option<string>): (r: ApiResponse<()>)
    ensures r.code == INTERNAL_SERVER_ERROR && r.data.None?
    ensures r.message == message.GetOr("서버 내부 오류가 발생했습니다")
  {
    Failure(INTERNAL_SERVER_ERROR, message)
  }

  /** `unauthorized(message)`: an UNAUTHORIZED failure. */
  function Unauthorized(message: Option<string>): (r: ApiResponse<()>)
    ensures r.code == UNAUTHORIZED && r.data.None? && r.message == message.GetOr("인증이 필요합니다")
  {
    Failure(UNAUTHORIZED, message)
  }

  /** `forbidden(message)`: a FORBIDDEN failure. */
  function Forbidden(message: Option<string>): (r: ApiResponse<()>)
    ensures r.code == FORBIDDEN && r.data.None? && r.message == message.GetOr("접근 권한이 없습니다")
  {
    Failure(FORBIDDEN, message)
  }

  /** `validationFailed(message)`: a VALIDATION_FAILED failure. */
  function ValidationFailed(message: Option<string>): (r: ApiResponse<()>)
    ensures r.code == VALIDATION_FAILED && r.data.None?
    ensures r.message == message.GetOr("유효성 검증에 실패했습니다")
  {
    Failure(VALIDATION_FAILED, message)
  }
}
