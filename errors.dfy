/**
 * The exceptions the core throws or catches, as one closed variant, with the class
 * hierarchy of the source (`BusinessException` and its three abstract families) recovered as
 * predicates, and the result codes responses carry.
 */
module Errors {
  import opened Wrappers
  import Text

  /** Result codes of API responses, each with its default message. */
  datatype ResultCode =
    | SUCCESS | BAD_REQUEST | UNAUTHORIZED | FORBIDDEN | NOT_FOUND | CONFLICT
    | INTERNAL_SERVER_ERROR | VALIDATION_FAILED | DUPLICATE_DATA | INVALID_PARAMETER
  {
    function Message(): string {
      match this
      case SUCCESS => "성공"
      case BAD_REQUEST => "잘못된 요청입니다"
      case UNAUTHORIZED => "인증이 필요합니다"
      case FORBIDDEN => "접근 권한이 없습니다"
      case NOT_FOUND => "리소스를 찾을 수 없습니다"
      case CONFLICT => "리소스 충돌이 발생했습니다"
      case INTERNAL_SERVER_ERROR => "서버 내부 오류가 발생했습니다"
      case VALIDATION_FAILED => "유효성 검증에 실패했습니다"
      case DUPLICATE_DATA => "중복된 데이터입니다"
      case INVALID_PARAMETER => "유효하지 않은 매개변수입니다"
    }
  }

  const PotholeBusinessDefault := "포트홀 비즈니스 로직 오류가 발생했습니다"
  const PotholeValidationDefault := "포트홀 데이터 유효성 검증에 실패했습니다"
  const ReportBusinessDefault := "제보 비즈니스 로직 오류가 발생했습니다"
  const ReportValidationDefault := "제보 데이터 유효성 검증에 실패했습니다"

  /**
   * The exceptions of the core. The first seven are `BusinessException`s; `OtherBusiness`
   * stands for any further subclass of `BusinessException` outside the three families.
   * `DataIntegrityViolation` is the store refusing to delete a row another row references;
   * `Runtime` is any other exception, with its (nullable) message.
   */
  datatype Exception =
    | PotholeNotFound(potholeId: Option<int>)
    | ReportNotFound(reportId: Option<int>)
    | PotholeBusiness(message: string)
    | ReportBusiness(message: string)
    | PotholeValidation(message: string, field: Option<string>)
    | ReportValidation(message: string, field: Option<string>)
    | OtherBusiness(message: string)
    | IllegalArgument(detail: Option<string>)
    | NoSuchElement(detail: Option<string>)
    | NoHandlerFound(detail: Option<string>)
    | DataIntegrityViolation(detail: Option<string>)
    | Runtime(detail: Option<string>)
  {
    /** Subclasses of `ResourceNotFoundException`. */
    predicate IsResourceNotFound() {
      PotholeNotFound? || ReportNotFound?
    }

    /** Subclasses of `ValidationException`. */
    predicate IsValidation() {
      PotholeValidation? || ReportValidation?
    }

    /** Subclasses of `BusinessLogicException`. */
    predicate IsBusinessLogic() {
      PotholeBusiness? || ReportBusiness?
    }

    /** Subclasses of `BusinessException`. */
    predicate IsBusiness() {
      IsResourceNotFound() || IsValidation() || IsBusinessLogic() || OtherBusiness?
    }

    /** `Throwable.message`. */
    function Message(): (m: Option<string>)
      ensures IsBusiness() ==> m.Some?
    {
      match this
      case PotholeNotFound(id) => Some(PotholeNotFoundMessage(id))
      case ReportNotFound(id) => Some(ReportNotFoundMessage(id))
      case PotholeBusiness(msg) => Some(msg)
      case ReportBusiness(msg) => Some(msg)
      case PotholeValidation(msg, _) => Some(msg)
      case ReportValidation(msg, _) => Some(msg)
      case OtherBusiness(msg) => Some(msg)
      case IllegalArgument(d) => d
      case NoSuchElement(d) => d
      case NoHandlerFound(d) => d
      case DataIntegrityViolation(d) => d
      case Runtime(d) => d
    }
  }

  /** The message of `PotholeNotFoundException(id)`. */
  function PotholeNotFoundMessage(id: Option<int>): string {
    match id
    case Some(n) => "ID " + Text.IntToString(n) + " 에 해당하는 포트홀을 찾을 수 없습니다"
    case None => "포트홀을 찾을 수 없습니다"
  }

  /** The message of `ReportNotFoundException(id)`. */
  function ReportNotFoundMessage(id: Option<int>): string {
    match id
    case Some(n) => "ID " + Text.IntToString(n) + " 에 해당하는 제보를 찾을 수 없습니다"
    case None => "제보를 찾을 수 없습니다"
  }

  lemma CommonSuffix(a: string, b: string, t: string)
    requires a + t == b + t
    ensures a == b
  {
    assert a == (a + t)[..|a|];
    assert |a| == |b|;
    assert b == (b + t)[..|b|];
  }

  /** The message names the id: two not-found exceptions for different ids read differently. */
  lemma PotholeNotFoundMessageInjective(a: Option<int>, b: Option<int>)
    requires PotholeNotFoundMessage(a) == PotholeNotFoundMessage(b)
    ensures a == b
  {
    var tail := " 에 해당하는 포트홀을 찾을 수 없습니다";
    if a.Some? && b.Some? {
      var sa, sb := Text.IntToString(a.value), Text.IntToString(b.value);
      assert ("ID " + sa) + tail == ("ID " + sb) + tail;
      CommonSuffix("ID " + sa, "ID " + sb, tail);
      assert sa == ("ID " + sa)[3..] && sb == ("ID " + sb)[3..];
      Text.IntToStringInjective(a.value, b.value);
    }
  }

  lemma ReportNotFoundMessageInjective(a: Option<int>, b: Option<int>)
    requires ReportNotFoundMessage(a) == ReportNotFoundMessage(b)
    ensures a == b
  {
    var tail := " 에 해당하는 제보를 찾을 수 없습니다";
    if a.Some? && b.Some? {
      var sa, sb := Text.IntToString(a.value), Text.IntToString(b.value);
      assert ("ID " + sa) + tail == ("ID " + sb) + tail;
      CommonSuffix("ID " + sa, "ID " + sb, tail);
      assert sa == ("ID " + sa)[3..] && sb == ("ID " + sb)[3..];
      Text.IntToStringInjective(a.value, b.value);
    }
  }
}
