# Pothole map API — a Dafny model of its core

This project models the backend of a pothole map. Citizens submit reports of road potholes, each
with a position, images and an optional description. The Kotlin/Spring service keeps two tables:
potholes and reports. Every report belongs to one pothole.

A new report joins the nearest pothole stored within one metre of its position, if there is one;
otherwise a new pothole is created at that position. Images come either as URLs or as uploaded
files. Uploaded files are written under `reports/` with generated names and then served back by
an image controller. Reads are listings over the tables: by box, by radius, by keyword, with an
image, and the ten newest.

Failures travel as exceptions. A global handler turns them into the common `ApiResponse`
envelope. At start-up an initializer seeds an empty pothole table from a bundled JSON file.

The repository contains two packages. The newer one, `potholemapapi`, contributes the current
`ReportService`, its exception handler and exception families, the result codes and the marker
status. The older one, `portholemapapi`, contributes the entities, DTOs, repositories, the
pothole, file and geocoding services, the image controller, the initializer and its own
exception handler. The newer `ReportService` imports entities, DTOs and repositories of its
own package; those files are not part of this model, and the older package's definitions
stand in for them.

How the model is laid out:

- `Persistence.Store` is a class holding both tables and their identity counters. Rows are
  kept in id order. The class keeps the foreign key `report.pothole_id` as part of its
  invariant `Valid`.
- Services that change data are methods on a `Store`.
- Listings are pure functions over a snapshot of a table.
- Repository queries are functions whose contracts say which rows they return, how many times
  each, and in what order.
- The upload directory is the class `FileStorage.FileStore`: a map from relative path to
  bytes. The pure functions `StoreOutcome` and `ObjectsAfterStore` specify the batch upload
  method.
- Things the code gets from outside are parameters:
  - the clock: `now`; `potholeNow` and `reportNow` where a pothole and a report are built
    apart; `stamp(i)` for the i-th seed entry; `clock(i)` for the i-th file;
  - the geocoder's answer (`geocoded`);
  - Kotlin's rendering of a `Double` (`show`);
  - the random marker status (`status`, or `pick(i)` for the i-th row);
  - the database's distance formula (`Store.dist`).

Where the two packages differ, both are modelled (the exception handlers) or the difference is
stated:

- The older `ReportService`'s createReport, createReportWithFiles and updateReport construct
  `Report` without its required `pothole` argument, and createReport reads the field
  `request.address`, which `CreateReportRequest` does not have. That code does not compile
  against the entity and DTO of its package, so the newer service's versions are modelled.
  - The older createReportWithFiles stores the coordinate string as the address. This is
    `CreateReportWithFiles` with `geocoded == None`.
  - The older version also stores the images before it does anything else and resolves no
    pothole.
- The `Pothole` entity of the older package has no `address` column, yet `PotholeResponse.from` reads
  `pothole.address`. The model has an optional address, and no operation ever sets it.
  `updatePothole` rebuilds the entity without passing one (see `PotholeService.MergePothole`).

## Model

Source paths are relative to the repository root. `potholemapapi` is the newer package and
`portholemapapi` the older one.

| member | source | states |
|---|---|---|
| Errors.Exception.Message | src/main/kotlin/training/goorm/portholemapapi/exception/BaseExceptions.kt:6-30 | every `BusinessException` carries a message (its constructor takes a non-null one) |
| Errors.PotholeNotFoundMessageInjective | src/main/kotlin/training/goorm/potholemapapi/exception/PotholeExceptions.kt:6-11 | the not-found message names the id: different (or absent vs present) ids give different messages |
| Errors.ReportNotFoundMessageInjective | src/main/kotlin/training/goorm/potholemapapi/exception/PotholeExceptions.kt:31-36 | the same for reports |
| ApiResponses.SuccessWithData | src/main/kotlin/training/goorm/portholemapapi/dto/ApiResponse.kt:20-26 | SUCCESS code, the default message "성공", the data present |
| ApiResponses.SuccessWithMessage | src/main/kotlin/training/goorm/portholemapapi/dto/ApiResponse.kt:29-35 | SUCCESS code and no data; the given message, or "성공" when it is omitted |
| ApiResponses.SuccessWithDataAndMessage | src/main/kotlin/training/goorm/portholemapapi/dto/ApiResponse.kt:38-44 | SUCCESS code with both the data and the message kept |
| ApiResponses.Failure | src/main/kotlin/training/goorm/portholemapapi/dto/ApiResponse.kt:46-52 | the given code, never any data; an absent message falls back to the code's default |
| ApiResponses.BadRequest | src/main/kotlin/training/goorm/portholemapapi/dto/ApiResponse.kt:54-56 | BAD_REQUEST with the message or "잘못된 요청입니다" |
| ApiResponses.NotFound | src/main/kotlin/training/goorm/portholemapapi/dto/ApiResponse.kt:58-60 | NOT_FOUND with the message or its default |
| ApiResponses.InternalServerError | src/main/kotlin/training/goorm/portholemapapi/dto/ApiResponse.kt:62-64 | INTERNAL_SERVER_ERROR with the message or its default |
| ApiResponses.Unauthorized | src/main/kotlin/training/goorm/portholemapapi/dto/ApiResponse.kt:66-68 | UNAUTHORIZED with the message or its default |
| ApiResponses.Forbidden | src/main/kotlin/training/goorm/portholemapapi/dto/ApiResponse.kt:70-72 | FORBIDDEN with the message or its default |
| ApiResponses.ValidationFailed | src/main/kotlin/training/goorm/portholemapapi/dto/ApiResponse.kt:74-76 | VALIDATION_FAILED with the message or its default |
| ExceptionHandlers.HandleCurrent | src/main/kotlin/training/goorm/potholemapapi/exception/GlobalExceptionHandler.kt:12-51 | the response for each exception family, by the handler of the closest superclass; never any data |
| ExceptionHandlers.HandleLegacy | src/main/kotlin/training/goorm/portholemapapi/exception/GlobalExceptionHandler.kt:11-29 | the older handler: the exception's own message (or the default) for IllegalArgument and NoSuchElement, a fixed NOT_FOUND for an unknown route, INTERNAL_SERVER_ERROR for all else (result codes in the body; the handler sets no HTTP status) |
| ExceptionHandlers.CurrentServerErrorOnlyForUnhandled | src/main/kotlin/training/goorm/potholemapapi/exception/GlobalExceptionHandler.kt:48-51 | the current handler answers with the result code INTERNAL_SERVER_ERROR exactly for exceptions outside every handled family |
| ExceptionHandlers.CurrentNotFoundDiscardsId | src/main/kotlin/training/goorm/potholemapapi/exception/GlobalExceptionHandler.kt:12-15 | any two not-found exceptions give the same response: the id does not reach the client |
| ExceptionHandlers.HandlersAgreeOnCodeIffNotBusiness | src/main/kotlin/training/goorm/portholemapapi/exception/GlobalExceptionHandler.kt:11-29 | the two handlers give the same code exactly for non-business exceptions; the older one gives every business exception INTERNAL_SERVER_ERROR, the current one BAD_REQUEST or NOT_FOUND |
| ExceptionHandlers.HandlerMessagesNonEmpty | src/main/kotlin/training/goorm/potholemapapi/exception/GlobalExceptionHandler.kt:12-51 | the current handler never answers with an empty message; the older one does exactly when it passes an empty exception message through |
| ExceptionHandlers.LegacyKeepsDetail | src/main/kotlin/training/goorm/portholemapapi/exception/GlobalExceptionHandler.kt:11-19 | the older handler passes a present exception message through unchanged |
| Dtos.CreateReportValidIff | src/main/kotlin/training/goorm/portholemapapi/dto/ReportDto.kt:54-75 | a create request has no constraint violation iff its coordinates are within the inclusive bounds, it has 1 to 6 non-blank image URLs and its description is at most 2000 UTF-16 units |
| Dtos.UpdateReportValidIff | src/main/kotlin/training/goorm/portholemapapi/dto/ReportDto.kt:78-90 | an update is valid iff a present address fits 1000, a present image list has 1 to 6 non-blank URLs, and a present description fits 2000 |
| Dtos.EmptyUpdateIsValid | src/main/kotlin/training/goorm/portholemapapi/dto/ReportDto.kt:78-90 | an update with every field absent passes validation |
| Dtos.CreateReportMultipartValidIff | src/main/kotlin/training/goorm/portholemapapi/dto/ReportDto.kt:93-109 | a multipart request is valid iff it is within the bounds and its description fits 2000 |
| Dtos.CoordinateBoundaryExamples | src/main/kotlin/training/goorm/portholemapapi/dto/ReportDto.kt:56-65 | the bounds are inclusive at both ends; one degree beyond gives exactly that bound's message |
| Dtos.ImageCountExamples | src/main/kotlin/training/goorm/portholemapapi/dto/ReportDto.kt:67-70 | an empty list violates both `@NotEmpty` and `@Size`; seven URLs violate only `@Size`; one URL is fine |
| Dtos.ReportResponseFrom | src/main/kotlin/training/goorm/portholemapapi/dto/ReportDto.kt:38-49 | fails with IllegalArgument("Report ID cannot be null") iff the report has no id; otherwise copies every field |
| Dtos.PotholeResponseFrom | src/main/kotlin/training/goorm/portholemapapi/dto/PotholeDto.kt:42-54 | fails iff the pothole has no id; otherwise copies every field, takes the given image list and marker status, and leaves the distance unset |
| Dtos.MarkerStatusOnlyAffectsItself | src/main/kotlin/training/goorm/portholemapapi/dto/PotholeDto.kt:50 | the random marker status changes that field of the response and nothing else |
| Dtos.ReportResponsesFrom | src/main/kotlin/training/goorm/portholemapapi/service/ReportService.kt:25-28 | mapping a list succeeds iff every report has an id, with one response per report in order |
| Dtos.PotholeResponsesFrom | src/main/kotlin/training/goorm/portholemapapi/service/PotholeService.kt:23-26 | the same for potholes, with no image list and the i-th status `pick(i)` |
| Persistence.PotholeRowsDistinct | src/main/kotlin/training/goorm/portholemapapi/entity/Pothole.kt:8-11 | a table whose identity ids increase has no duplicate rows |
| Persistence.ReportRowsDistinct | src/main/kotlin/training/goorm/portholemapapi/entity/Report.kt:12-48 | the same for reports |
| Persistence.RemoveUnreferencedKeepsLinks | src/main/kotlin/training/goorm/portholemapapi/entity/Report.kt:12-48 | removing a pothole no report names keeps every report's foreign key satisfied |
| Persistence.FindPothole | src/main/kotlin/training/goorm/portholemapapi/service/PotholeService.kt:31-35 | `findById`: the row with that id, or none iff no row has it |
| Persistence.FindReport | src/main/kotlin/training/goorm/portholemapapi/service/ReportService.kt:33-37 | the same for reports |
| Persistence.Store.InsertPothole | src/main/kotlin/training/goorm/portholemapapi/entity/Pothole.kt:8-11 | `save` of a new pothole: appended with the next identity id; the report table is unchanged; the invariant is kept |
| Persistence.Store.UpdatePotholeAt | src/main/kotlin/training/goorm/portholemapapi/service/PotholeService.kt:112-122 | `save` of an existing pothole overwrites its row and nothing else |
| Persistence.Store.DeletePotholeAt | src/main/kotlin/training/goorm/portholemapapi/service/PotholeService.kt:130-135 | deleting an unreferenced pothole removes exactly its row |
| Persistence.Store.InsertReport | src/main/kotlin/training/goorm/potholemapapi/service/ReportService.kt:101 | `save` of a new report whose pothole exists: appended with the next id |
| Persistence.Store.UpdateReportAt | src/main/kotlin/training/goorm/potholemapapi/service/ReportService.kt:145-157 | an existing report's row is overwritten, keeping its pothole |
| Persistence.Store.DeleteReportAt | src/main/kotlin/training/goorm/potholemapapi/service/ReportService.kt:164-170 | exactly that report row goes |
| Persistence.Store.Rollback | src/main/kotlin/training/goorm/potholemapapi/service/ReportService.kt:108-135 | a failed transaction puts both tables back to a snapshot; the identity counters stay where they are |
| PotholeQueries.FindByLocationRange | src/main/kotlin/training/goorm/portholemapapi/repository/PotholeRepository.kt:15-26 | exactly the rows inside the inclusive box, each as often as in the table, newest first |
| PotholeQueries.FindByDescriptionContainingIgnoreCase | src/main/kotlin/training/goorm/portholemapapi/repository/PotholeRepository.kt:31 | exactly the rows whose description contains the keyword, ignoring case |
| PotholeQueries.FindByImageUrlIsNotNull | src/main/kotlin/training/goorm/portholemapapi/repository/PotholeRepository.kt:36 | exactly the rows that have an image URL |
| PotholeQueries.FindTop10ByOrderByCreatedAtDesc | src/main/kotlin/training/goorm/portholemapapi/repository/PotholeRepository.kt:41 | min(10, n) rows, newest first, none of the omitted rows newer than one returned |
| PotholeQueries.FindPotholesWithinRadius | src/main/kotlin/training/goorm/portholemapapi/repository/PotholeRepository.kt:49-66 | exactly the rows within the radius by the database's distance, nearest first |
| PotholeQueries.DslFindByLocationRange | src/main/kotlin/training/goorm/portholemapapi/repository/PotholeQueryDslRepository.kt:14-27 | the rows inside the box, with no order promised |
| PotholeQueries.DslFindByDescriptionContaining | src/main/kotlin/training/goorm/portholemapapi/repository/PotholeQueryDslRepository.kt:29-35 | case-insensitive keyword matches, newest first |
| PotholeQueries.DslCountByLocationRange | src/main/kotlin/training/goorm/portholemapapi/repository/PotholeQueryDslRepository.kt:37-51 | the number of rows inside the box, never more than the table |
| PotholeQueries.DslAndJpqlFindSameRows | src/main/kotlin/training/goorm/portholemapapi/repository/PotholeQueryDslRepository.kt:14-27 | the QueryDSL and JPQL box queries return the same rows as multisets |
| PotholeQueries.CountMatchesFind | src/main/kotlin/training/goorm/portholemapapi/repository/PotholeQueryDslRepository.kt:37-51 | the count equals the length of either box result |
| PotholeQueries.InvertedBoxIsEmpty | src/main/kotlin/training/goorm/portholemapapi/repository/PotholeRepository.kt:15-26 | a box with min above max matches nothing, and its count is 0 |
| PotholeQueries.ResultsAreDistinctSubsets | src/main/kotlin/training/goorm/portholemapapi/repository/PotholeRepository.kt:15-66 | from a table without duplicates, no query answers with a duplicate |
| ReportQueries.FindByLocationRange | src/main/kotlin/training/goorm/portholemapapi/repository/ReportRepository.kt:15-26 | exactly the reports inside the inclusive box, newest first |
| ReportQueries.FindByAddressContainingIgnoreCase | src/main/kotlin/training/goorm/portholemapapi/repository/ReportRepository.kt:31 | exactly the reports whose address contains the keyword, ignoring case |
| ReportQueries.FindByDescriptionContainingIgnoreCase | src/main/kotlin/training/goorm/portholemapapi/repository/ReportRepository.kt:36 | exactly the reports with a description containing the keyword; a null description never matches |
| ReportQueries.FindTop10ByOrderByCreatedAtDesc | src/main/kotlin/training/goorm/portholemapapi/repository/ReportRepository.kt:41 | min(10, n) reports, newest first, none omitted that is newer |
| ReportQueries.FindAllByOrderByCreatedAtDesc | src/main/kotlin/training/goorm/portholemapapi/repository/ReportRepository.kt:46 | a permutation of the table, newest first |
| ReportQueries.AllListsEachReportOnce | src/main/kotlin/training/goorm/portholemapapi/repository/ReportRepository.kt:46 | with unique rows, the full listing holds every report exactly once and nothing else |
| ReportQueries.SameTimestamps | src/main/kotlin/training/goorm/portholemapapi/repository/ReportRepository.kt:46 | two newest-first orderings of the same reports have the same timestamp at every position, however ties are broken |
| ReportQueries.Top10IsPrefixOfAll | src/main/kotlin/training/goorm/portholemapapi/repository/ReportRepository.kt:41-46 | for any newest-first ordering of the whole table (such as `findAllByOrderByCreatedAtDesc`), the top ten are as many as its first ten, drawn from it, with its first ten timestamps position by position, whatever order equal timestamps take |
| Text.ContainsIff | src/main/kotlin/training/goorm/portholemapapi/service/FileStorageService.kt:143 | `contains` holds iff the pattern occurs at some index |
| Text.EmptyKeywordMatches | src/main/kotlin/training/goorm/portholemapapi/repository/PotholeRepository.kt:31 | every string contains the empty keyword, so an empty search returns every row |
| Text.LastIndexOf | src/main/kotlin/training/goorm/portholemapapi/service/FileStorageService.kt:154 | -1 iff the character is absent; otherwise the index of its last occurrence |
| Text.SubstringAfterLast | src/main/kotlin/training/goorm/portholemapapi/controller/ImageController.kt:91 | the result has no delimiter; it is the whole string without one, else the tail after some occurrence |
| Text.NatToStringInjective | src/main/kotlin/training/goorm/portholemapapi/service/FileStorageService.kt:71-72 | different numbers render differently in decimal |
| FileStorage.GetFileExtension | src/main/kotlin/training/goorm/portholemapapi/service/FileStorageService.kt:153-160 | a non-empty extension starts with '.' and has at least one character after it |
| FileStorage.GetFileExtensionMeaning | src/main/kotlin/training/goorm/portholemapapi/service/FileStorageService.kt:153-160 | non-empty iff the last '.' is neither the first nor the last character; then the lowercased text from that '.' on, with no further '.' |
| FileStorage.FileExtensionExamples | src/main/kotlin/training/goorm/portholemapapi/service/FileStorageService.kt:153-160 | ".jpg", "a." and "jpg" have no extension; "A.JPG" gives ".jpg"; only the last dot counts |
| FileStorage.ContentTypeMatchesWhitelist | src/main/kotlin/training/goorm/portholemapapi/service/FileStorageService.kt:165-182 | a path gets an image content type iff its extension passes the whitelist |
| FileStorage.CheckUpload | src/main/kotlin/training/goorm/portholemapapi/service/FileStorageService.kt:52-68 | a file passes iff it is non-empty, named, whitelisted and at most 5 MiB; a failure is a validation error |
| FileStorage.CheckOrderExamples | src/main/kotlin/training/goorm/portholemapapi/service/FileStorageService.kt:52-68 | the checks run in source order (empty, name, format, size), and 5 MiB exactly passes |
| FileStorage.UniqueFilenameInjective | src/main/kotlin/training/goorm/portholemapapi/service/FileStorageService.kt:71-73 | a generated name determines its timestamp, index and extension |
| FileStorage.ExtractObjectKeyFromUrl | src/main/kotlin/training/goorm/portholemapapi/service/FileStorageService.kt:142-148 | fails with "유효하지 않은 파일 URL입니다" iff the marker is absent |
| FileStorage.ExtractInvertsImageUrl | src/main/kotlin/training/goorm/portholemapapi/service/FileStorageService.kt:85 | round trip: the key recovered from a returned URL is the key that was written |
| FileStorage.BatchLimits | src/main/kotlin/training/goorm/portholemapapi/service/FileStorageService.kt:35-43 | no files or more than six is refused with its message before anything is written |
| FileStorage.StoreOutcomeMeaning | src/main/kotlin/training/goorm/portholemapapi/service/FileStorageService.kt:35-90 | a batch succeeds iff it has 1 to 6 files, all passing; the URLs are one per file, in order, pairwise different, each naming a stored file; a failure is a validation error |
| FileStorage.FirstInvalid | src/main/kotlin/training/goorm/portholemapapi/service/FileStorageService.kt:44-46 | the file whose failure ends a batch: none iff every file passes, otherwise a failing index with all earlier files passing |
| FileStorage.UrlsAt | src/main/kotlin/training/goorm/portholemapapi/service/FileStorageService.kt:44-46 | the i-th returned URL is the URL of the i-th file's key |
| FileStorage.UrlsDistinct | src/main/kotlin/training/goorm/portholemapapi/service/FileStorageService.kt:44-46 | within one call, URLs of different files differ, because the index is in the name |
| FileStorage.FileStore.StoreImageFile | src/main/kotlin/training/goorm/portholemapapi/service/FileStorageService.kt:52-90 | a failing file changes nothing; a passing one is written under `reports/report_<t>_<i><ext>` (replacing any file there) and its URL returned |
| FileStorage.FileStore.StoreImageFiles | src/main/kotlin/training/goorm/portholemapapi/service/FileStorageService.kt:35-47 | returns `StoreOutcome` and leaves the directory as `ObjectsAfterStore`: files before the first failing one stay written |
| FileStorage.FileStore.DeleteFile | src/main/kotlin/training/goorm/portholemapapi/service/FileStorageService.kt:129-137 | false for a foreign URL; otherwise whether the file existed, which is then gone |
| FileStorage.StoredUrlsExist | src/main/kotlin/training/goorm/portholemapapi/service/FileStorageService.kt:116-124 | `doesFileExist` is true for every URL the batch returned |
| FileStorage.WrittenHoldsBytes | src/main/kotlin/training/goorm/portholemapapi/service/FileStorageService.kt:81-82 | in a valid batch every file keeps its own bytes: no later file overwrites it |
| FileStorage.StoredKeyExtension | src/main/kotlin/training/goorm/portholemapapi/service/FileStorageService.kt:72-73 | a stored name carries its upload's checked extension, so it reads back as a whitelisted image |
| FileStorage.GetFileFromStorage | src/main/kotlin/training/goorm/portholemapapi/service/FileStorageService.kt:95-111 | succeeds iff the file exists, with its bytes and its content type |
| ImageController.ContentTypeFromExtension | src/main/kotlin/training/goorm/portholemapapi/controller/ImageController.kt:90-99 | each image type iff the lowercased text after the last '.' is that extension; octet-stream otherwise |
| ImageController.ParsersDiverge | src/main/kotlin/training/goorm/portholemapapi/controller/ImageController.kt:90-99 | the controller's and the service's parsers disagree on "jpg" and ".jpg" |
| ImageController.ParsersAgreeOnExtension | src/main/kotlin/training/goorm/portholemapapi/controller/ImageController.kt:90-99 | whenever the service sees an extension, both tables give the same content type |
| ImageController.GetReportImage | src/main/kotlin/training/goorm/portholemapapi/controller/ImageController.kt:19-39 | the image iff `reports/<name>` exists, with its bytes and content type; 404 otherwise |
| ImageController.GetImage | src/main/kotlin/training/goorm/portholemapapi/controller/ImageController.kt:41-64 | the image iff the path exists; the file name after the last '/' has no '/' |
| ImageController.ReportImageIsImageAtPath | src/main/kotlin/training/goorm/portholemapapi/controller/ImageController.kt:19-64 | a plain name under /images/reports/ is the same response as its full path under /images/ |
| ImageController.HeadImage | src/main/kotlin/training/goorm/portholemapapi/controller/ImageController.kt:66-88 | a HEAD hit carries the controller's content type for the last path segment |
| ImageController.HeadFindsWhatGetServes | src/main/kotlin/training/goorm/portholemapapi/controller/ImageController.kt:66-88 | the URL rebuilt by HEAD yields the path back, so for every path that names a file, HEAD finds exactly what GET serves; the directory paths are under "## Left out" |
| ImageController.UploadIsServed | src/main/kotlin/training/goorm/portholemapapi/service/FileStorageService.kt:72-85 | every file of a successful batch is served under its generated name with its own bytes and an image content type |
| ReportService.FoundIsNearest | src/main/kotlin/training/goorm/potholemapapi/service/ReportService.kt:189-204 | a reused pothole is stored, at most one metre away, and no stored pothole is nearer |
| ReportService.CreatedOnlyWhenNothingNear | src/main/kotlin/training/goorm/potholemapapi/service/ReportService.kt:189-204 | a pothole is created iff every stored pothole is more than one metre away |
| ReportService.NewPothole | src/main/kotlin/training/goorm/potholemapapi/service/ReportService.kt:195-201 | the new pothole is at the report's point, with its description or "새로 발견된 포트홀", no image |
| ReportService.ResolveAddsAtMostOne | src/main/kotlin/training/goorm/potholemapapi/service/ReportService.kt:189-204 | the step adds at most one pothole, which is at the point and more than a metre from all earlier ones |
| ReportService.SamePointSamePothole | src/main/kotlin/training/goorm/potholemapapi/service/ReportService.kt:189-204 | a second report at the same point joins the same pothole and adds none |
| ReportService.FindOrCreatePothole | src/main/kotlin/training/goorm/potholemapapi/service/ReportService.kt:189-204 | the tables become the deduplication step's result; the returned pothole is stored |
| ReportService.CoordinateAddress | src/main/kotlin/training/goorm/portholemapapi/service/NaverGeocodingService.kt:47-57 | the fallback address starts with "위도: " and the rendered latitude and ends with the rendered longitude, 10 characters of template in all |
| ReportService.AddressOf | src/main/kotlin/training/goorm/portholemapapi/service/NaverGeocodingService.kt:22-57 | the geocoded address when there is one, and the coordinate fallback on every failure path |
| ReportService.NewReport | src/main/kotlin/training/goorm/potholemapapi/service/ReportService.kt:90-99 | the report built from the request, the address and the pothole id |
| ReportService.CreateReport | src/main/kotlin/training/goorm/potholemapapi/service/ReportService.kt:84-103 | links the report to the resolved pothole and appends it; the response mirrors the saved row |
| ReportService.CreateReportWithFiles | src/main/kotlin/training/goorm/potholemapapi/service/ReportService.kt:108-135 | the directory becomes `ObjectsAfterStore`; an upload failure puts both tables back; success appends one report holding exactly the stored URLs |
| ReportService.MergeReport | src/main/kotlin/training/goorm/potholemapapi/service/ReportService.kt:145-155 | a present field replaces the stored one, an absent one keeps it; id, position, pothole and createdAt are kept |
| ReportService.EmptyUpdateOnlyTouchesUpdatedAt | src/main/kotlin/training/goorm/potholemapapi/service/ReportService.kt:145-155 | an empty update only moves `updatedAt` |
| ReportService.MergeNeverClearsDescription | src/main/kotlin/training/goorm/potholemapapi/service/ReportService.kt:151 | an update can replace a description but never clear one |
| ReportService.MergeReportIdempotent | src/main/kotlin/training/goorm/potholemapapi/service/ReportService.kt:145-155 | the same update twice equals once, at the later time |
| ReportService.UpdateReport | src/main/kotlin/training/goorm/potholemapapi/service/ReportService.kt:140-159 | not-found changes nothing; otherwise exactly that row becomes the merge |
| ReportService.DeleteReport | src/main/kotlin/training/goorm/potholemapapi/service/ReportService.kt:164-170 | fails iff the id is missing, changing nothing; otherwise exactly that row goes |
| ReportService.DeleteRemovesExactlyThatId | src/main/kotlin/training/goorm/potholemapapi/service/ReportService.kt:164-170 | what is left is every row except the one with that id |
| ReportService.ResponsesMirror | src/main/kotlin/training/goorm/potholemapapi/service/ReportService.kt:29-32 | the responses of identified rows carry their fields, position by position |
| ReportService.GetAllReports | src/main/kotlin/training/goorm/potholemapapi/service/ReportService.kt:29-32 | one response per report, newest first: as many responses as rows, and every row's id among them |
| ReportService.GetReportById | src/main/kotlin/training/goorm/potholemapapi/service/ReportService.kt:37-41 | ReportNotFound(id) iff no row has the id; otherwise that row's response |
| ReportService.GetReportsByLocationRange | src/main/kotlin/training/goorm/potholemapapi/service/ReportService.kt:46-54 | exactly the reports inside the box by id: every response lies in the box, every report in the box has a response; newest first |
| ReportService.SearchReportsByAddress | src/main/kotlin/training/goorm/potholemapapi/service/ReportService.kt:59-62 | every response's address contains the keyword, ignoring case, and every such report has a response |
| ReportService.SearchReportsByDescription | src/main/kotlin/training/goorm/potholemapapi/service/ReportService.kt:67-70 | every response has a description containing the keyword, and every such report has a response |
| ReportService.RecentAreTheNewest | src/main/kotlin/training/goorm/potholemapapi/service/ReportService.kt:75-78 | the responses to the top-ten query: min(10, n), newest first, each from a row of the table, none older than a row left out |
| ReportService.GetRecentReports | src/main/kotlin/training/goorm/potholemapapi/service/ReportService.kt:75-78 | min(10, n) responses, newest first, each with the id and createdAt of a row of the table, and none older than a row left out |
| ReportService.ExistsAgreesWithLookup | src/main/kotlin/training/goorm/potholemapapi/service/ReportService.kt:175-177 | `existsReportById` holds iff the lookup succeeds iff some row has the id |
| ReportService.CountIsLengthOfAll | src/main/kotlin/training/goorm/potholemapapi/service/ReportService.kt:182-184 | the count equals the length of the full listing |
| PotholeService.PotholeOf | src/main/kotlin/training/goorm/portholemapapi/service/PotholeService.kt:91-98 | the entity built from the request, without id or address |
| PotholeService.CreatePothole | src/main/kotlin/training/goorm/portholemapapi/service/PotholeService.kt:89-102 | exactly one pothole is appended with the request's fields; the response mirrors it |
| PotholeService.MergePothole | src/main/kotlin/training/goorm/portholemapapi/service/PotholeService.kt:107-124 | a present description or image replaces the stored one; position, id and createdAt are kept; no address |
| PotholeService.MergeNeverClearsImage | src/main/kotlin/training/goorm/portholemapapi/service/PotholeService.kt:107-124 | an update can set an image but never clear one |
| PotholeService.EmptyUpdateOnlyTouchesUpdatedAt | src/main/kotlin/training/goorm/portholemapapi/service/PotholeService.kt:107-124 | an empty update only moves `updatedAt` |
| PotholeService.MergePotholeIdempotent | src/main/kotlin/training/goorm/portholemapapi/service/PotholeService.kt:107-124 | the same update twice equals once, at the later time |
| PotholeService.UpdatePothole | src/main/kotlin/training/goorm/portholemapapi/service/PotholeService.kt:107-124 | not-found changes nothing; otherwise exactly that row becomes the merge |
| PotholeService.DeletePothole | src/main/kotlin/training/goorm/portholemapapi/service/PotholeService.kt:129-135 | not-found changes nothing; a pothole a report names is refused with nothing changed; otherwise exactly that row goes |
| PotholeService.DeleteRemovesExactlyThatId | src/main/kotlin/training/goorm/portholemapapi/service/PotholeService.kt:129-135 | what is left is every row except the one with that id |
| PotholeService.ResponsesMirror | src/main/kotlin/training/goorm/portholemapapi/service/PotholeService.kt:23-26 | the responses of identified rows carry their fields, position by position |
| PotholeService.GetAllPotholes | src/main/kotlin/training/goorm/portholemapapi/service/PotholeService.kt:23-26 | one response per pothole, in table order |
| PotholeService.GetPotholeById | src/main/kotlin/training/goorm/portholemapapi/service/PotholeService.kt:31-35 | PotholeNotFound(id) iff no row has the id; otherwise that row's response |
| PotholeService.GetPotholesByLocationRange | src/main/kotlin/training/goorm/portholemapapi/service/PotholeService.kt:40-48 | every response lies in the box and every pothole in the box has a response; newest first |
| PotholeService.GetPotholesWithinRadius | src/main/kotlin/training/goorm/portholemapapi/service/PotholeService.kt:53-60 | as many responses as the radius query, each within the radius, every pothole within it listed; nearest first |
| PotholeService.SearchPotholesByKeyword | src/main/kotlin/training/goorm/portholemapapi/service/PotholeService.kt:65-68 | every response's description contains the keyword, and every such pothole has a response |
| PotholeService.GetPotholesWithImage | src/main/kotlin/training/goorm/portholemapapi/service/PotholeService.kt:73-76 | every response has an image URL, and every pothole with one has a response |
| PotholeService.RecentAreTheNewest | src/main/kotlin/training/goorm/portholemapapi/service/PotholeService.kt:81-84 | the responses to the top-ten query: min(10, n), newest first, each from a row of the table, none older than a row left out |
| PotholeService.GetRecentPotholes | src/main/kotlin/training/goorm/portholemapapi/service/PotholeService.kt:81-84 | min(10, n) responses, newest first, each with the id and createdAt of a row of the table, and none older than a row left out |
| PotholeService.ExistsAgreesWithLookup | src/main/kotlin/training/goorm/portholemapapi/service/PotholeService.kt:140-142 | `existsPotholeById` holds iff the lookup succeeds iff the table has the id |
| PotholeService.CountIsLengthOfAll | src/main/kotlin/training/goorm/portholemapapi/service/PotholeService.kt:147-149 | the count equals the length of the full listing |
| DataInitializer.SeedRow | src/main/kotlin/training/goorm/portholemapapi/config/PotholeDataInitializer.kt:57-64 | the entity for one entry: its fields, no id, no address, both timestamps `now` |
| DataInitializer.SeedRows | src/main/kotlin/training/goorm/portholemapapi/config/PotholeDataInitializer.kt:55-67 | one row per entry, in file order, the i-th with id `next + i` and stamped `stamp(i)` |
| DataInitializer.SeedRowsIdsOk | src/main/kotlin/training/goorm/portholemapapi/config/PotholeDataInitializer.kt:67 | the seeded rows form a well-formed table |
| DataInitializer.AfterInitMeaning | src/main/kotlin/training/goorm/portholemapapi/config/PotholeDataInitializer.kt:23-80 | the table changes iff it was empty and the file held entries; then it holds the entries' rows, and the outcome reports their number |
| DataInitializer.InitIdempotent | src/main/kotlin/training/goorm/portholemapapi/config/PotholeDataInitializer.kt:30-37 | once the table holds a row, running again with any file changes nothing |
| DataInitializer.Initialize | src/main/kotlin/training/goorm/portholemapapi/config/PotholeDataInitializer.kt:23-80 | outcome, table and counter are `AfterInit` of the old state; reports untouched; never fails |

## Left out

- Concurrency and transaction isolation are not modelled. Two reports racing near the same
  spot can each create a pothole in the real system; the model runs one operation at a time.
- Floating point is not modelled. Coordinates are `real`. The radius query's haversine formula
  is an abstract `Distance` function. Properties that need a fact about it, such as a
  distance of zero from a point to itself, state that fact in their `requires`.
- The Naver geocoder's HTTP call is a parameter `geocoded: Option<string>`. Every failure path
  (error status, empty result, null body, exception) appears as `None`, which gives the
  coordinate string.
- `LocalDateTime.now()` and `System.currentTimeMillis()` are parameters. Separate statements
  get separate instants (`potholeNow` and `reportNow` in report creation, `stamp(i)` per seed
  entry, `clock(i)` per file). The `createdAt` and `updatedAt` of one constructor call are
  still taken to read the same instant.
- `MarkerStatus.values().random()` is a parameter (`status`, `pick`).
- The file system is a map from relative path to bytes:
  - `Paths.get` normalization (`..`, repeated `/`) is not modelled;
  - the `IOException` path ("파일 저장 중 오류가 발생했습니다") is not modelled, because writing
    to the map cannot fail;
  - the creation of the upload directory at start-up is not modelled;
  - directories are not modelled. `uploads` (key "") and `uploads/reports` (key "reports")
    exist on disk once the service has started and a file has been stored, and
    `Files.exists` is true of them. So `doesFileExist`, and with it a HEAD request for
    `/images/reports`, answers true (200 with `application/octet-stream`), while GET on the
    same path fails in `readAllBytes` and answers 404. `deleteFile` on a URL whose key is
    "" or "reports" removes that directory and returns true when it is empty, and returns
    false (a caught `DirectoryNotEmptyException`) when it is not. The model answers "no such file" and false for these keys, so
    FileStorage.DoesFileExist, FileStorage.FileStore.DeleteFile, ImageController.HeadImage
    and ImageController.HeadFindsWhatGetServes hold only for keys that name files.
- ImageController.HeadFindsWhatGetServes: holds for paths that name files, not for the
  directory path `reports`, where the source's HEAD answers 200 and its GET answers 404 (see
  the directory item above).
- FileStorage.GetFileFromStorage: only the missing-file failure is modelled, with both layers
  of the source's message. A failure of `Files.readAllBytes` on an existing file is not
  modelled, because reading the map cannot fail.
- The HTTP layer of the image controller is not modelled: caching headers, the ETag built
  from `path.hashCode()`, `Content-Disposition` quoting and the Spring path matching of
  `/**`. The model keeps the bytes, the content type and the file name.
- The controllers, CORS, OpenAPI, S3 and application configuration are framework wiring with
  no logic of their own, and are not modelled.
- The JavaScript functions under `functions/` are a separate serverless variant, not the
  Kotlin core, and are not modelled.
- The older `ReportService`'s createReport, createReportWithFiles and updateReport do not
  compile (see above), so they are not modelled separately.
- DataInitializer.Initialize: a database failure inside `saveAll` and the rollback it would
  cause are not modelled; the only failures are a missing or unparsable resource. Logging is
  left out.
- PotholeService.DeletePothole: the database's detail message of the foreign-key violation is
  not modelled (`DataIntegrityViolation(None)`).
- Bean Validation runs in the controllers before a service is called. The services here take
  requests as they are, and the `*Violations` functions model the check on its own.
- The `@Column` length limits (500 and 1000) that the database enforces on save are not
  modelled.
- ApiResponses.Failure: this factory and the other factories that never carry data
  (SuccessWithMessage, BadRequest, NotFound, InternalServerError, Unauthorized, Forbidden,
  ValidationFailed) return `ApiResponse<()>` rather than Kotlin's `ApiResponse<T>` for any
  `T`. With no data, nothing depends on `T`, and every handler in the core answers with
  `ApiResponse<Unit>`.
- Text.Lower: case folding is ASCII only. Kotlin's `lowercase()` and SQL `LOWER` also fold
  non-ASCII cased letters (Latin-1, Greek, Cyrillic, full-width forms). The IgnoreCase
  searches over such letters are not modelled: the keyword and the stored addresses and
  descriptions are user input. Hangul has no case, so Korean text is matched as in the source.
- The order of rows with equal sort keys is fixed by the model's insertion sort, both
  for `ORDER BY createdAt DESC` (FindByLocationRange, FindTop10ByOrderByCreatedAtDesc,
  FindAllByOrderByCreatedAtDesc, DslFindByDescriptionContaining) and for `ORDER BY distance`
  (FindPotholesWithinRadius). The database may break such ties differently, and one query
  need not break them the way another does. ReportQueries.Top10IsPrefixOfAll is therefore
  stated for every newest-first ordering of the table, not for the model's own.
- PotholeService.GetAllPotholes: returns the rows in table (id) order. `findAll()` promises no
  order, so the model fixes one that the database need not follow.
