/**
 * Request and response shapes of the report and pothole endpoints: the Bean Validation
 * constraints declared on the request fields, and the `from` mappings from an entity to its
 * response, which refuse an entity the store has not yet given an id.
 */
module Dtos {
  import opened Wrappers
  import opened Text
  import opened Errors
  import opened Entities

  // ---------------------------------------------------------------- validation constraints

  const MinLatitude: real := -90.0
  const MaxLatitude: real := 90.0
  const MinLongitude: real := -180.0
  const MaxLongitude: real := 180.0
  const MaxImages: nat := 6
  const MaxDescriptionLength: nat := 2000
  const MaxAddressLength: nat := 1000

  const LatitudeTooSmall := "위도는 -90.0 이상이어야 합니다"
  const LatitudeTooLarge := "위도는 90.0 이하여야 합니다"
  const LongitudeTooSmall := "경도는 -180.0 이상이어야 합니다"
  const LongitudeTooLarge := "경도는 180.0 이하여야 합니다"
  const ImagesEmpty := "이미지는 최소 1장 이상 등록해야 합니다"
  const ImagesCount := "이미지는 1장에서 6장까지 등록 가능합니다"
  const ImageUrlBlank := "이미지 URL은 빈 값일 수 없습니다"
  const DescriptionTooLong := "설명은 2000자 이하여야 합니다"
  const AddressTooLong := "주소는 1000자 이하여야 합니다"

  /** The JSON body of a report submitted with already-uploaded image URLs. */
  datatype CreateReportRequest = CreateReportRequest(
    latitude: real, longitude: real, imageUrls: seq<string>, description: Option<string>)

  /** A partial update of a report: an absent field keeps the stored value. */
  datatype UpdateReportRequest = UpdateReportRequest(
    address: Option<string>, imageUrls: Option<seq<string>>, description: Option<string>)

  /** The form fields of a report submitted together with its image files. */
  datatype CreateReportMultipartRequest = CreateReportMultipartRequest(
    latitude: real, longitude: real, description: Option<string>)

  datatype CreatePotholeRequest = CreatePotholeRequest(
    latitude: real, longitude: real, description: string, imageUrl: Option<string>)

  datatype UpdatePotholeRequest = UpdatePotholeRequest(
    description: Option<string>, imageUrl: Option<string>)

  /** The messages of the violated `@DecimalMin`/`@DecimalMax` constraints of a coordinate pair. */
  function CoordinateViolations(latitude: real, longitude: real): set<string> {
    (if latitude < MinLatitude then {LatitudeTooSmall} else {})
    + (if latitude > MaxLatitude then {LatitudeTooLarge} else {})
    + (if longitude < MinLongitude then {LongitudeTooSmall} else {})
    + (if longitude > MaxLongitude then {LongitudeTooLarge} else {})
  }

  /** `@Size(min = 1, max = 6)` on a list of `@NotBlank` strings. */
  function ImageListViolations(urls: seq<string>): set<string> {
    (if !(1 <= |urls| <= MaxImages) then {ImagesCount} else {})
    + (if exists i :: 0 <= i < |urls| && IsBlank(urls[i]) then {ImageUrlBlank} else {})
  }

  /** `@Size(max = n)` on an optional string; Java measures it in UTF-16 units. */
  function LengthViolations(s: Option<string>, max: nat, message: string): set<string> {
    if s.Some? && Utf16Length(s.value) > max then {message} else {}
  }

  /** The set of constraint messages Bean Validation reports for a `CreateReportRequest`. */
  function CreateReportViolations(req: CreateReportRequest): set<string> {
    CoordinateViolations(req.latitude, req.longitude)
    + (if |req.imageUrls| == 0 then {ImagesEmpty} else {})
    + ImageListViolations(req.imageUrls)
    + LengthViolations(req.description, MaxDescriptionLength, DescriptionTooLong)
  }

  function UpdateReportViolations(req: UpdateReportRequest): set<string> {
    LengthViolations(req.address, MaxAddressLength, AddressTooLong)
    + (if req.imageUrls.Some? then ImageListViolations(req.imageUrls.value) else {})
    + LengthViolations(req.description, MaxDescriptionLength, DescriptionTooLong)
  }

  function CreateReportMultipartViolations(req: CreateReportMultipartRequest): set<string> {
    CoordinateViolations(req.latitude, req.longitude)
    + LengthViolations(req.description, MaxDescriptionLength, DescriptionTooLong)
  }

  /** The coordinate bounds, both ends inclusive. */
  predicate InBounds(latitude: real, longitude: real) {
    -90.0 <= latitude <= 90.0 && -180.0 <= longitude <= 180.0
  }

  /** One to six image URLs, none of them blank. */
  predicate GoodImageList(urls: seq<string>) {
    1 <= |urls| <= 6 && forall i :: 0 <= i < |urls| ==> !IsBlank(urls[i])
  }

  predicate FitsLength(s: Option<string>, max: nat) {
    s.None? || Utf16Length(s.value) <= max
  }

  /** A request passes validation exactly when its coordinates, images and description are in range. */
  lemma CreateReportValidIff(req: CreateReportRequest)
    ensures CreateReportViolations(req) == {} <==>
              InBounds(req.latitude, req.longitude) && GoodImageList(req.imageUrls)
              && FitsLength(req.description, 2000)
  {
    if CreateReportViolations(req) == {} {
      assert ImageUrlBlank !in CreateReportViolations(req);
      assert ImagesCount !in CreateReportViolations(req);
    }
  }

  lemma UpdateReportValidIff(req: UpdateReportRequest)
    ensures UpdateReportViolations(req) == {} <==>
              FitsLength(req.address, 1000)
              && (req.imageUrls.None? || GoodImageList(req.imageUrls.value))
              && FitsLength(req.description, 2000)
  {
    if UpdateReportViolations(req) == {} && req.imageUrls.Some? {
      assert ImageUrlBlank !in UpdateReportViolations(req);
      assert ImagesCount !in UpdateReportViolations(req);
    }
  }

  /** An update that names no field passes validation. */
  lemma EmptyUpdateIsValid()
    ensures UpdateReportViolations(UpdateReportRequest(None, None, None)) == {}
  {
  }

  lemma CreateReportMultipartValidIff(req: CreateReportMultipartRequest)
    ensures CreateReportMultipartViolations(req) == {} <==>
              InBounds(req.latitude, req.longitude) && FitsLength(req.description, 2000)
  {
  }

  /** The bounds are inclusive: the corner (90, 180) passes, one degree beyond either fails. */
  lemma CoordinateBoundaryExamples()
    ensures CoordinateViolations(90.0, 180.0) == {}
    ensures CoordinateViolations(-90.0, -180.0) == {}
    ensures CoordinateViolations(91.0, 0.0) == {LatitudeTooLarge}
    ensures CoordinateViolations(0.0, 181.0) == {LongitudeTooLarge}
  {
  }

  /** An empty image list violates both `@NotEmpty` and `@Size`; seven violate only `@Size`. */
  lemma ImageCountExamples(url: string)
    requires !IsBlank(url)
    ensures ImagesEmpty in CreateReportViolations(CreateReportRequest(0.0, 0.0, [], None))
    ensures ImagesCount in CreateReportViolations(CreateReportRequest(0.0, 0.0, [], None))
    ensures CreateReportViolations(CreateReportRequest(0.0, 0.0, [url], None)) == {}
    ensures CreateReportViolations(CreateReportRequest(0.0, 0.0, [url, url, url, url, url, url, url], None))
              == {ImagesCount}
  {
    var one := CreateReportRequest(0.0, 0.0, [url], None);
    assert !exists i :: 0 <= i < |one.imageUrls| && IsBlank(one.imageUrls[i]);
    var seven := [url, url, url, url, url, url, url];
    assert !exists i :: 0 <= i < |seven| && IsBlank(seven[i]);
  }

  // ---------------------------------------------------------------- responses

  datatype MarkerStatus = Danger | Caution | VerificationRequired
  {
    function DisplayName(): string {
      match this
      case Danger => "위험"
      case Caution => "주의"
      case VerificationRequired => "검증필요"
    }
  }

  datatype ReportResponse = ReportResponse(
    id: int, latitude: real, longitude: real, address: string, imageUrls: seq<string>,
    description: Option<string>, createdAt: int, updatedAt: int)

  datatype PotholeResponse = PotholeResponse(
    id: int, latitude: real, longitude: real, description: string, imageUrl: Option<string>,
    imageUrls: seq<string>, markerStatus: MarkerStatus, createdAt: int, address: Option<string>,
    distance: Option<real>)

  /** `ReportResponse.from`: a field-by-field copy that refuses a report without an id. */
  function ReportResponseFrom(r: Report): (res: Result<ReportResponse, Exception>)
    ensures res.Failure? <==> r.id.None?
    ensures res.Failure? ==> res.error == IllegalArgument(Some("Report ID cannot be null"))
    ensures res.Success? ==>
              var v := res.value;
              Some(v.id) == r.id && v.latitude == r.latitude && v.longitude == r.longitude
              && v.address == r.address && v.imageUrls == r.imageUrls
              && v.description == r.description && v.createdAt == r.createdAt
              && v.updatedAt == r.updatedAt
  {
    match r.id
    case None => Failure(IllegalArgument(Some("Report ID cannot be null")))
    case Some(id) =>
      Success(ReportResponse(id, r.latitude, r.longitude, r.address, r.imageUrls,
                             r.description, r.createdAt, r.updatedAt))
  }

  /**
   * `PotholeResponse.from(pothole, imageUrls)`. The marker status is drawn at random from the
   * three values; here it is the argument `status`. The distance is never set by `from`.
   */
  function PotholeResponseFrom(p: Pothole, imageUrls: seq<string>, status: MarkerStatus)
    : (res: Result<PotholeResponse, Exception>)
    ensures res.Failure? <==> p.id.None?
    ensures res.Failure? ==> res.error == IllegalArgument(Some("Pothole ID cannot be null"))
    ensures res.Success? ==>
              var v := res.value;
              Some(v.id) == p.id && v.latitude == p.latitude && v.longitude == p.longitude
              && v.description == p.description && v.imageUrl == p.imageUrl
              && v.imageUrls == imageUrls && v.markerStatus == status
              && v.createdAt == p.createdAt && v.address == p.address && v.distance.None?
  {
    match p.id
    case None => Failure(IllegalArgument(Some("Pothole ID cannot be null")))
    case Some(id) =>
      Success(PotholeResponse(id, p.latitude, p.longitude, p.description, p.imageUrl, imageUrls,
                              status, p.createdAt, p.address, None))
  }

  /** The random choice of marker status affects that field of the response and nothing else. */
  lemma MarkerStatusOnlyAffectsItself(p: Pothole, urls: seq<string>, s1: MarkerStatus, s2: MarkerStatus)
    requires p.id.Some?
    ensures PotholeResponseFrom(p, urls, s1).value.(markerStatus := s2) == PotholeResponseFrom(p, urls, s2).value
  {
  }

  /** `list.map { ReportResponse.from(it) }`: the first report without an id aborts the mapping. */
  function ReportResponsesFrom(rs: seq<Report>): (res: Result<seq<ReportResponse>, Exception>)
    ensures res.Success? <==> forall i :: 0 <= i < |rs| ==> rs[i].id.Some?
    ensures res.Success? ==> |res.value| == |rs|
    ensures res.Success? ==> forall i :: 0 <= i < |rs| ==> res.value[i] == ReportResponseFrom(rs[i]).value
    ensures res.Failure? ==> res.error == IllegalArgument(Some("Report ID cannot be null"))
  {
    if |rs| == 0 then Success([])
    else
      match ReportResponseFrom(rs[0])
      case Failure(e) => Failure(e)
      case Success(head) =>
        match ReportResponsesFrom(rs[1..])
        case Failure(e) => Failure(e)
        case Success(tail) =>
          assert forall i :: 1 <= i < |rs| ==> rs[i] == rs[1..][i - 1];
          Success([head] + tail)
  }

  /**
   * The service's `map { PotholeResponse.from(it) }`: no image list is passed, and the
   * `i`-th pothole gets the marker status `pick(i)`.
   */
  function PotholeResponsesFrom(ps: seq<Pothole>, pick: nat -> MarkerStatus)
    : (res: Result<seq<PotholeResponse>, Exception>)
    ensures res.Success? <==> forall i :: 0 <= i < |ps| ==> ps[i].id.Some?
    ensures res.Success? ==> |res.value| == |ps|
    ensures res.Success? ==>
              forall i :: 0 <= i < |ps| ==> res.value[i] == PotholeResponseFrom(ps[i], [], pick(i)).value
    ensures res.Failure? ==> res.error == IllegalArgument(Some("Pothole ID cannot be null"))
    decreases |ps|
  {
    if |ps| == 0 then Success([])
    else
      var init := ps[..|ps| - 1];
      match PotholeResponsesFrom(init, pick)
      case Failure(e) => Failure(e)
      case Success(front) =>
        match PotholeResponseFrom(ps[|ps| - 1], [], pick(|ps| - 1))
        case Failure(e) => Failure(e)
        case Success(last) =>
          Success(front + [last])
  }
}
