/**
 * `ImageController`: serves stored report images by file name or by path, answers HEAD
 * requests, and has its own extension-to-content-type table. Any runtime error of the lookup
 * becomes 404.
 */
module ImageController {
  import opened Wrappers
  import opened Text
  import opened Errors
  import opened FileStorage

  /** The answer to a GET: the bytes with their content type and the file name of the disposition. */
  datatype ImageResponse = Image(bytes: seq<bv8>, contentType: string, filename: string) | ImageNotFound

  /** The answer to a HEAD: the content type of the file, or 404. */
  datatype HeadResponse = Head(contentType: string) | HeadNotFound

  /**
   * `getContentTypeFromExtension`: the text after the last '.', lowercased (the whole name
   * when there is no '.'), looked up in the controller's table.
   */
  function ContentTypeFromExtension(filename: string): (ct: string)
    ensures var ext := Lower(SubstringAfterLast(filename, '.'));
            (ct == "image/jpeg" <==> ext == "jpg" || ext == "jpeg")
            && (ct == "image/png" <==> ext == "png")
            && (ct == "image/gif" <==> ext == "gif")
            && (ct == "image/webp" <==> ext == "webp")
            && (ct == OctetStream <==> ext !in {"jpg", "jpeg", "png", "gif", "webp"})
  {
    ContentTypeOfBareExtension(Lower(SubstringAfterLast(filename, '.')))
  }

  /** The controller's table, keyed by the extension without its dot. */
  function ContentTypeOfBareExtension(ext: string): string {
    if ext == "jpg" || ext == "jpeg" then "image/jpeg"
    else if ext == "png" then "image/png"
    else if ext == "gif" then "image/gif"
    else if ext == "webp" then "image/webp"
    else OctetStream
  }

  /** A dot has no lower case of its own. */
  lemma LowerDot()
    ensures Lower(".") == "."
  {
    assert Lower(".")[0] == LowerChar('.');
  }

  /** Putting a dot in front of two strings keeps them apart. */
  lemma DotCancels(a: string, b: string)
    ensures ("." + a == "." + b) <==> a == b
  {
    if "." + a == "." + b {
      assert a == ("." + a)[1..] && b == ("." + b)[1..];
    }
  }

  /** The tables agree once the dot is put back. */
  lemma TablesAgree(ext: string)
    ensures ContentTypeOfExtension("." + ext) == ContentTypeOfBareExtension(ext)
  {
    assert ".jpg" == "." + "jpg" && ".jpeg" == "." + "jpeg" && ".png" == "." + "png";
    assert ".gif" == "." + "gif" && ".webp" == "." + "webp";
    DotCancels(ext, "jpg");
    DotCancels(ext, "jpeg");
    DotCancels(ext, "png");
    DotCancels(ext, "gif");
    DotCancels(ext, "webp");
  }

  /**
   * The two extension parsers disagree: a bare "jpg", or a name whose only dot is its first
   * character, is a JPEG for the controller but has no extension for the storage service.
   */
  lemma ParsersDiverge()
    ensures ContentTypeFromExtension("jpg") == "image/jpeg"
    ensures ContentTypeFromPath("jpg") == OctetStream
    ensures ContentTypeFromExtension(".jpg") == "image/jpeg"
    ensures ContentTypeFromPath(".jpg") == OctetStream
  {
    assert SubstringAfterLast("jpg", '.') == "jpg";
    assert Lower("jpg") == "jpg";
    LastIndexOfAt(".jpg", '.', 0);
    assert SubstringAfterLast(".jpg", '.') == "jpg";
    FileExtensionExamples();
    assert Lower("") == "";
  }

  /** Whenever the storage service sees an extension, both tables give the same content type. */
  lemma ParsersAgreeOnExtension(name: string)
    requires GetFileExtension(name) != ""
    ensures ContentTypeFromExtension(name) == ContentTypeFromPath(name)
  {
    GetFileExtensionMeaning(name);
    var k := LastIndexOf(name, '.');
    var tail := name[k + 1..];
    assert name[k..] == "." + tail;
    assert SubstringAfterLast(name, '.') == tail;
    var ext := GetFileExtension(name);
    LowerIdempotent(name[k..]);
    assert Lower(ext) == Lower("." + tail);
    LowerAppend(".", tail);
    LowerDot();
    TablesAgree(Lower(tail));
  }

  /** `getReportImage`: looks up "reports/" + filename; a failed lookup is 404. */
  function GetReportImage(objects: map<string, seq<bv8>>, filename: string): (r: ImageResponse)
    ensures r.Image? <==> ObjectKey(filename) in objects
    ensures r.Image? ==>
              r == Image(objects[ObjectKey(filename)], ContentTypeFromPath(ObjectKey(filename)), filename)
  {
    match GetFileFromStorage(objects, ReportsDir + filename)
    case Failure(_) => ImageNotFound
    case Success((bytes, contentType)) => Image(bytes, contentType, filename)
  }

  /** `getImage`: looks up the path itself; the disposition names the part after the last '/'. */
  function GetImage(objects: map<string, seq<bv8>>, path: string): (r: ImageResponse)
    ensures r.Image? <==> path in objects
    ensures r.Image? ==> r.bytes == objects[path] && r.contentType == ContentTypeFromPath(path)
    ensures r.Image? ==> r.filename == SubstringAfterLast(path, '/') && '/' !in r.filename
  {
    match GetFileFromStorage(objects, path)
    case Failure(_) => ImageNotFound
    case Success((bytes, contentType)) => Image(bytes, contentType, SubstringAfterLast(path, '/'))
  }

  /** A file name served under /images/reports/ is the same file as its full path under /images/. */
  lemma ReportImageIsImageAtPath(objects: map<string, seq<bv8>>, filename: string)
    requires '/' !in filename
    ensures GetReportImage(objects, filename) == GetImage(objects, ReportsDir + filename)
  {
    var path := ReportsDir + filename;
    forall j | |ReportsDir| - 1 < j < |path| ensures path[j] != '/' {
      assert path[j] == filename[j - |ReportsDir|];
    }
    LastIndexOfAt(path, '/', |ReportsDir| - 1);
    assert path[|ReportsDir|..] == filename;
  }

  /**
   * HEAD: asks the storage whether the URL "https://…/api/images/" + path names a file, and
   * answers with the controller's content type for the part after the last '/'.
   */
  function HeadImage(objects: map<string, seq<bv8>>, path: string): (r: HeadResponse)
    ensures r.Head? ==> r.contentType == ContentTypeFromExtension(SubstringAfterLast(path, '/'))
  {
    if DoesFileExist(objects, UrlPrefix + path) then Head(ContentTypeFromExtension(SubstringAfterLast(path, '/')))
    else HeadNotFound
  }

  /** The rebuilt URL yields the path back, so HEAD finds exactly the files GET serves. */
  lemma HeadFindsWhatGetServes(objects: map<string, seq<bv8>>, path: string)
    ensures ExtractObjectKeyFromUrl(UrlPrefix + path) == Success(path)
    ensures HeadImage(objects, path).Head? <==> path in objects
    ensures HeadImage(objects, path).Head? <==> GetImage(objects, path).Image?
  {
    ExtractInvertsImageUrl(path);
  }

  /**
   * Every image of a successful upload batch is served back under its file name with its own
   * bytes and an image content type.
   */
  lemma UploadIsServed(objects: map<string, seq<bv8>>, files: seq<Upload>, clock: nat -> nat, i: nat)
    requires StoreOutcome(files, clock).Success? && i < |files|
    ensures var name := UniqueFilename(clock(i), i, UploadExtension(files[i]));
            var r := GetReportImage(ObjectsAfterStore(objects, files, clock), name);
            r.Image? && r.bytes == files[i].bytes && r.contentType != OctetStream
  {
    StoreOutcomeMeaning(objects, files, clock);
    var after := ObjectsAfterStore(objects, files, clock);
    assert after == Written(objects, files, clock, |files|);
    WrittenHoldsBytes(objects, files, clock, |files|, i);
    var key := StoredKey(files[i], i, clock(i));
    StoredKeyExtension(files[i], i, clock(i));
    ContentTypeMatchesWhitelist(key);
  }
}
