/**
 * The two `GlobalExceptionHandler`s: the current one (package `potholemapapi`), which knows
 * the `BusinessException` families, and the older one (package `portholemapapi`), which only
 * knows the standard Java exceptions. Spring picks the handler of the closest superclass.
 */
module ExceptionHandlers {
  import opened Wrappers
  import opened Errors
  import opened ApiResponses

  /** The messages the handlers put into their responses. */
  const ResourceNotFoundMessage := "리소스를 찾을 수 없습니다"
  const InvalidInputMessage := "입력 데이터가 올바르지 않습니다"
  const BusinessLogicMessage := "비즈니스 로직 오류가 발생했습니다"
  const UnprocessableMessage := "요청을 처리할 수 없습니다"
  const BadRequestMessage := "잘못된 요청입니다"
  const ApiNotFoundMessage := "요청한 API를 찾을 수 없습니다"
  const InternalErrorMessage := "서버 내부 오류가 발생했습니다"

  /** The handler response of the current package. Handlers return `ApiResponse<Unit>`. */
  function HandleCurrent(e: Exception): (r: ApiResponse<()>)
    ensures r.data.None?
    ensures e.IsResourceNotFound() ==> r == NotFound(Some(ResourceNotFoundMessage))
    ensures e.IsValidation() ==> r == BadRequest(Some(InvalidInputMessage))
    ensures e.IsBusinessLogic() ==> r == BadRequest(Some(BusinessLogicMessage))
    ensures e.OtherBusiness? ==> r == BadRequest(Some(UnprocessableMessage))
    ensures e.IllegalArgument? ==> r == BadRequest(Some(BadRequestMessage))
    ensures e.NoSuchElement? ==> r == NotFound(Some(ResourceNotFoundMessage))
    ensures e.NoHandlerFound? ==> r == NotFound(Some(ApiNotFoundMessage))
    ensures e.DataIntegrityViolation? || e.Runtime? ==> r == InternalServerError(Some(InternalErrorMessage))
  {
    match e
    case PotholeNotFound(_) => NotFound(Some(ResourceNotFoundMessage))
    case ReportNotFound(_) => NotFound(Some(ResourceNotFoundMessage))
    case PotholeValidation(_, _) => BadRequest(Some(InvalidInputMessage))
    case ReportValidation(_, _) => BadRequest(Some(InvalidInputMessage))
    case PotholeBusiness(_) => BadRequest(Some(BusinessLogicMessage))
    case ReportBusiness(_) => BadRequest(Some(BusinessLogicMessage))
    case OtherBusiness(_) => BadRequest(Some(UnprocessableMessage))
    case IllegalArgument(_) => BadRequest(Some(BadRequestMessage))
    case NoSuchElement(_) => NotFound(Some(ResourceNotFoundMessage))
    case NoHandlerFound(_) => NotFound(Some(ApiNotFoundMessage))
    case DataIntegrityViolation(_) => InternalServerError(Some(InternalErrorMessage))
    case Runtime(_) => InternalServerError(Some(InternalErrorMessage))
  }

  /** The handler response of the older package: business exceptions fall to the generic handler. */
  function HandleLegacy(e: Exception): (r: ApiResponse<()>)
    ensures r.data.None?
    ensures e.IllegalArgument? ==> r == BadRequest(Some(e.detail.GetOr(BadRequestMessage)))
    ensures e.NoSuchElement? ==> r == NotFound(Some(e.detail.GetOr(ResourceNotFoundMessage)))
    ensures e.NoHandlerFound? ==> r == NotFound(Some(ApiNotFoundMessage))
    ensures !(e.IllegalArgument? || e.NoSuchElement? || e.NoHandlerFound?) ==>
              r == InternalServerError(Some(InternalErrorMessage))
  {
    match e
    case IllegalArgument(d) => BadRequest(Some(d.GetOr(BadRequestMessage)))
    case NoSuchElement(d) => NotFound(Some(d.GetOr(ResourceNotFoundMessage)))
    case NoHandlerFound(_) => NotFound(Some(ApiNotFoundMessage))
    case _ => InternalServerError(Some(InternalErrorMessage))
  }

  /**
   * The current handler answers no client error with a server error: the only exceptions
   * it maps to INTERNAL_SERVER_ERROR are those outside every handled family.
   */
  lemma CurrentServerErrorOnlyForUnhandled(e: Exception)
    ensures HandleCurrent(e).code == INTERNAL_SERVER_ERROR <==> e.DataIntegrityViolation? || e.Runtime?
  {
  }

  /**
   * Not-found responses of the current handler carry a fixed message: the id named by a
   * `PotholeNotFoundException` or `ReportNotFoundException` does not reach the client.
   */
  lemma CurrentNotFoundDiscardsId(a: Exception, b: Exception)
    requires a.IsResourceNotFound() && b.IsResourceNotFound()
    ensures HandleCurrent(a) == HandleCurrent(b)
  {
  }

  /**
   * The two handlers agree on the result code exactly for exceptions outside the
   * `BusinessException` hierarchy; the older one turns every business exception into a
   * server error, the current one into a client error.
   */
  lemma HandlersAgreeOnCodeIffNotBusiness(e: Exception)
    ensures HandleCurrent(e).code == HandleLegacy(e).code <==> !e.IsBusiness()
    ensures e.IsBusiness() ==> HandleLegacy(e).code == INTERNAL_SERVER_ERROR
    ensures e.IsBusiness() ==> HandleCurrent(e).code in {BAD_REQUEST, NOT_FOUND}
  {
  }

  /**
   * Every answer of the current handler carries a non-empty message. The older handler's
   * message is empty exactly when it passes through an exception's own empty message.
   */
  lemma HandlerMessagesNonEmpty(e: Exception)
    ensures |HandleCurrent(e).message| > 0
    ensures |HandleLegacy(e).message| == 0 <==> (e.IllegalArgument? || e.NoSuchElement?) && e.detail == Some("")
  {
  }

  /** The older handler passes the exception's own message through when it has one. */
  lemma LegacyKeepsDetail(e: Exception)
    requires (e.IllegalArgument? || e.NoSuchElement?) && e.detail.Some?
    ensures HandleLegacy(e).message == e.detail.value
  {
  }
}
