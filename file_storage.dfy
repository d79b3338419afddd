/**
 * `FileStorageService`: validation and naming of uploaded report images, the directory they
 * are written to (a map from relative path to bytes under the `uploads` directory), the public
 * URL handed back for each, and the way a URL is turned back into a path.
 */
module FileStorage {
  import opened Wrappers
  import opened Text
  import opened Errors

  /** A part of a multipart request: the client's file name, if sent, and the content. */
  datatype Upload = Upload(originalFilename: Option<string>, bytes: seq<bv8>)

  const MaxFiles: nat := 6
  const MaxFileSize: nat := 5 * 1024 * 1024

  const NoImages := "이미지는 최소 1장 이상 등록해야 합니다"
  const TooManyImages := "이미지는 최대 6장까지만 등록 가능합니다"
  const EmptyFile := "빈 파일은 업로드할 수 없습니다"
  const NoFilename := "파일명이 없습니다"
  const UnsupportedFormat := "지원하지 않는 이미지 형식입니다. (jpg, jpeg, png, gif, webp만 지원)"
  const FileTooLarge := "이미지 파일 크기는 5MB 이하여야 합니다"
  const InvalidFileUrl := "유효하지 않은 파일 URL입니다"

  /** The part of a URL after which the object key starts. */
  const Marker := "goormthon-1.goorm.training/api/images/"
  /** What the service prefixes to an object key to make its URL. */
  const UrlPrefix := "https://" + Marker
  const ReportsDir := "reports/"

  const OctetStream := "application/octet-stream"

  /**
   * `getFileExtension`: from the last '.' on, lowercased, if that dot is neither the first nor
   * the last character; otherwise "".
   */
  function GetFileExtension(filename: string): (ext: string)
    ensures ext != "" ==> |ext| >= 2 && ext[0] == '.'
  {
    var k := LastIndexOf(filename, '.');
    if 0 < k < |filename| - 1 then Lower(filename[k..]) else ""
  }

  /**
   * The extension is non-empty exactly when the last '.' is neither the first nor the last
   * character; it is then the lowercased text from that '.' on, and holds no further '.'.
   */
  lemma GetFileExtensionMeaning(filename: string)
    ensures var ext := GetFileExtension(filename);
            (ext != "" <==> 0 < LastIndexOf(filename, '.') < |filename| - 1)
            && (ext != "" ==> ext == Lower(filename[LastIndexOf(filename, '.')..]))
            && (ext != "" ==> '.' !in ext[1..])
  {
    var k := LastIndexOf(filename, '.');
    if 0 < k < |filename| - 1 {
      var ext := Lower(filename[k..]);
      forall i | 1 <= i < |ext| ensures ext[i] != '.' {
        assert ext[i] == LowerChar(filename[k..][i]) && filename[k..][i] == filename[k + i];
      }
      assert forall m :: 0 <= m < |ext[1..]| ==> ext[1..][m] == ext[m + 1];
    }
  }

  /** The edge cases of the extension rule. */
  lemma FileExtensionExamples()
    ensures GetFileExtension(".jpg") == ""
    ensures GetFileExtension("a.") == ""
    ensures GetFileExtension("A.JPG") == ".jpg"
    ensures GetFileExtension("photo.tar.PNG") == ".png"
    ensures GetFileExtension("jpg") == ""
  {
    LastIndexOfAt(".jpg", '.', 0);
    LastIndexOfAt("a.", '.', 1);
    LastIndexOfAt("A.JPG", '.', 1);
    assert "A.JPG"[1..] == ".JPG";
    assert Lower(".JPG") == ".jpg";
    LastIndexOfAt("photo.tar.PNG", '.', 9);
    assert "photo.tar.PNG"[9..] == ".PNG";
    assert Lower(".PNG") == ".png";
  }

  /** `lastIndexOf` finds an occurrence with none after it. */
  lemma LastIndexOfAt(s: string, c: char, k: nat)
    requires k < |s| && s[k] == c && forall j :: k < j < |s| ==> s[j] != c
    ensures LastIndexOf(s, c) == k
  {
  }

  /** `isValidImageExtension`. */
  predicate IsValidImageExtension(ext: string) {
    ext in {".jpg", ".jpeg", ".png", ".gif", ".webp"}
  }

  /** `getContentTypeFromPath`. */
  function ContentTypeFromPath(path: string): (ct: string)
  {
    ContentTypeOfExtension(Lower(GetFileExtension(path)))
  }

  /** The service's table from a dotted, lower-case extension to a content type. */
  function ContentTypeOfExtension(ext: string): string {
    if ext == ".jpg" || ext == ".jpeg" then "image/jpeg"
    else if ext == ".png" then "image/png"
    else if ext == ".gif" then "image/gif"
    else if ext == ".webp" then "image/webp"
    else OctetStream
  }

  /**
   * A path gets an image type exactly when its extension passes the upload whitelist, and
   * then one of the four image types.
   */
  lemma ContentTypeMatchesWhitelist(path: string)
    ensures ContentTypeFromPath(path) != OctetStream <==> IsValidImageExtension(GetFileExtension(path))
    ensures IsValidImageExtension(GetFileExtension(path)) ==>
              ContentTypeFromPath(path) in {"image/jpeg", "image/png", "image/gif", "image/webp"}
  {
    var ext := GetFileExtension(path);
    if ext != "" {
      LowerIdempotent(path[LastIndexOf(path, '.')..]);
    }
  }

  /** The checks of `storeImageFile`, in their order; on success, the file's extension. */
  function CheckUpload(f: Upload): (r: Result<string, Exception>)
    ensures r.Success? <==> |f.bytes| > 0 && f.originalFilename.Some?
                            && IsValidImageExtension(GetFileExtension(f.originalFilename.value))
                            && |f.bytes| <= MaxFileSize
    ensures r.Success? ==> r.value == GetFileExtension(f.originalFilename.value) && r.value[0] == '.'
    ensures r.Failure? ==> r.error.ReportValidation? && r.error.field.None?
  {
    if |f.bytes| == 0 then Failure(ReportValidation(EmptyFile, None))
    else if f.originalFilename.None? then Failure(ReportValidation(NoFilename, None))
    else
      var ext := GetFileExtension(f.originalFilename.value);
      if !IsValidImageExtension(ext) then Failure(ReportValidation(UnsupportedFormat, None))
      else if |f.bytes| > MaxFileSize then Failure(ReportValidation(FileTooLarge, None))
      else Success(ext)
  }

  /** The checks come in the source's order: emptiness first, size last. */
  lemma CheckOrderExamples(bytes: seq<bv8>, name: string)
    ensures CheckUpload(Upload(None, [])) == Failure(ReportValidation(EmptyFile, None))
    ensures |bytes| > 0 ==> CheckUpload(Upload(None, bytes)) == Failure(ReportValidation(NoFilename, None))
    ensures |bytes| > MaxFileSize && !IsValidImageExtension(GetFileExtension(name)) ==>
              CheckUpload(Upload(Some(name), bytes)) == Failure(ReportValidation(UnsupportedFormat, None))
    ensures |bytes| == MaxFileSize && IsValidImageExtension(GetFileExtension(name)) ==>
              CheckUpload(Upload(Some(name), bytes)).Success?
  {
  }

  /** `report_<timestamp>_<index><extension>`. */
  function UniqueFilename(timestamp: nat, index: nat, ext: string): string {
    "report_" + (NatToString(timestamp) + ("_" + (NatToString(index) + ext)))
  }

  lemma CommonPrefix(p: string, a: string, b: string)
    requires p + a == p + b
    ensures a == b
  {
    assert a == (p + a)[|p|..];
    assert b == (p + b)[|p|..];
  }

  /**
   * A generated name determines its timestamp, index and extension: different indices give
   * different names whatever the clock reads.
   */
  lemma UniqueFilenameInjective(t1: nat, i1: nat, e1: string, t2: nat, i2: nat, e2: string)
    requires |e1| > 0 && e1[0] == '.' && |e2| > 0 && e2[0] == '.'
    requires UniqueFilename(t1, i1, e1) == UniqueFilename(t2, i2, e2)
    ensures t1 == t2 && i1 == i2 && e1 == e2
  {
    var a1, b1 := NatToString(t1), NatToString(i1);
    var a2, b2 := NatToString(t2), NatToString(i2);
    CommonPrefix("report_", a1 + ("_" + (b1 + e1)), a2 + ("_" + (b2 + e2)));
    DigitRunSplit(a1, "_" + (b1 + e1), a2, "_" + (b2 + e2));
    NatToStringInjective(t1, t2);
    CommonPrefix("_", b1 + e1, b2 + e2);
    DigitRunSplit(b1, e1, b2, e2);
    NatToStringInjective(i1, i2);
  }

  /** The object key of a stored report image. */
  function ObjectKey(filename: string): string {
    ReportsDir + filename
  }

  /** The URL returned for a stored object key. */
  function ImageUrl(key: string): string {
    UrlPrefix + key
  }

  /** `extractObjectKeyFromUrl`: what follows the first occurrence of the marker. */
  function ExtractObjectKeyFromUrl(url: string): (r: Result<string, Exception>)
    ensures r.Failure? <==> !Contains(url, Marker)
    ensures r.Failure? ==> r.error == ReportValidation(InvalidFileUrl, None)
  {
    if Contains(url, Marker) then Success(SubstringAfter(url, Marker))
    else Failure(ReportValidation(InvalidFileUrl, None))
  }

  /** The marker first occurs right after the scheme, whatever key follows. */
  lemma MarkerFoundAfterScheme(key: string)
    ensures IndexOf(ImageUrl(key), Marker) == Some(8)
  {
    var url := ImageUrl(key);
    assert url == "https://" + Marker + key;
    assert url[8..8 + |Marker|] == Marker;
    forall j: nat | j < 8 ensures !OccursAt(url, Marker, j) {
      assert url[j] != 'g';
      assert Marker[0] == 'g';
    }
    IndexOfFirst(url, Marker, 8);
  }

  /** Round trip: the key recovered from a service URL is the key the file was written under. */
  lemma ExtractInvertsImageUrl(key: string)
    ensures ExtractObjectKeyFromUrl(ImageUrl(key)) == Success(key)
  {
    MarkerFoundAfterScheme(key);
    assert ImageUrl(key)[8 + |Marker|..] == key;
  }

  /** The extension an upload's name yields ("" without a name). */
  function UploadExtension(f: Upload): string {
    match f.originalFilename
    case None => ""
    case Some(name) => GetFileExtension(name)
  }

  /** The object key under which the `index`-th upload of a call is written, at `timestamp`. */
  function StoredKey(f: Upload, index: nat, timestamp: nat): string {
    ObjectKey(UniqueFilename(timestamp, index, UploadExtension(f)))
  }

  /** All of the first `n` uploads pass their checks. */
  predicate AllValid(files: seq<Upload>, n: nat)
    requires n <= |files|
  {
    forall i :: 0 <= i < n ==> CheckUpload(files[i]).Success?
  }

  /** The key of every upload of a call, the i-th written at `clock(i)`. */
  function StoredKeys(files: seq<Upload>, clock: nat -> nat): (keys: seq<string>)
    ensures |keys| == |files|
  {
    if |files| == 0 then []
    else StoredKeys(files[..|files| - 1], clock) + [StoredKey(files[|files| - 1], |files| - 1, clock(|files| - 1))]
  }

  /** The `i`-th key is that of the `i`-th upload. */
  lemma {:induction false} StoredKeysAt(files: seq<Upload>, clock: nat -> nat, i: nat)
    requires i < |files|
    ensures StoredKeys(files, clock)[i] == StoredKey(files[i], i, clock(i))
  {
    var front := files[..|files| - 1];
    if i < |files| - 1 {
      StoredKeysAt(front, clock, i);
      assert front[i] == files[i];
    }
  }

  /** The directory after the bytes of the first `n` uploads have been written under `keys`, in order. */
  function WriteKeys(objects: map<string, seq<bv8>>, keys: seq<string>, files: seq<Upload>, n: nat)
    : map<string, seq<bv8>>
    requires n <= |keys| && n <= |files|
  {
    if n == 0 then objects
    else WriteKeys(objects, keys, files, n - 1)[keys[n - 1] := files[n - 1].bytes]
  }

  /** A key that no later write reuses keeps the bytes written under it. */
  lemma {:induction false} WriteKeysHolds(objects: map<string, seq<bv8>>, keys: seq<string>, files: seq<Upload>,
                                          n: nat, i: nat)
    requires n <= |keys| && n <= |files| && i < n
    requires forall j :: i < j < n ==> keys[j] != keys[i]
    ensures keys[i] in WriteKeys(objects, keys, files, n)
    ensures WriteKeys(objects, keys, files, n)[keys[i]] == files[i].bytes
  {
    if i < n - 1 {
      WriteKeysHolds(objects, keys, files, n - 1, i);
    }
  }

  /** Every key written so far is in the directory. */
  lemma {:induction false} WriteKeysHas(objects: map<string, seq<bv8>>, keys: seq<string>, files: seq<Upload>,
                                        n: nat, i: nat)
    requires n <= |keys| && n <= |files| && i < n
    ensures keys[i] in WriteKeys(objects, keys, files, n)
  {
    if i < n - 1 {
      WriteKeysHas(objects, keys, files, n - 1, i);
    }
  }

  /** The directory after the first `n` uploads of a call have been written, the i-th at `clock(i)`. */
  function Written(objects: map<string, seq<bv8>>, files: seq<Upload>, clock: nat -> nat, n: nat)
    : map<string, seq<bv8>>
    requires n <= |files|
  {
    WriteKeys(objects, StoredKeys(files, clock), files, n)
  }

  /** The URLs of the first `n` keys, in order. */
  function UrlsOf(keys: seq<string>, n: nat): (urls: seq<string>)
    requires n <= |keys|
    ensures |urls| == n
  {
    if n == 0 then [] else UrlsOf(keys, n - 1) + [ImageUrl(keys[n - 1])]
  }

  /** The `i`-th URL is the URL of the `i`-th key. */
  lemma {:induction false} UrlsOfAt(keys: seq<string>, n: nat, i: nat)
    requires n <= |keys| && i < n
    ensures UrlsOf(keys, n)[i] == ImageUrl(keys[i])
  {
    if i < n - 1 {
      UrlsOfAt(keys, n - 1, i);
    }
  }

  /** The URLs of the first `n` uploads. */
  function Urls(files: seq<Upload>, clock: nat -> nat, n: nat): (urls: seq<string>)
    requires n <= |files|
    ensures |urls| == n
  {
    UrlsOf(StoredKeys(files, clock), n)
  }

  /** The `i`-th URL is the URL of the `i`-th file's key. */
  lemma UrlsAt(files: seq<Upload>, clock: nat -> nat, n: nat, i: nat)
    requires n <= |files| && i < n
    ensures Urls(files, clock, n)[i] == ImageUrl(StoredKey(files[i], i, clock(i)))
  {
    UrlsOfAt(StoredKeys(files, clock), n, i);
    StoredKeysAt(files, clock, i);
  }

  /** The first upload that fails its checks. */
  function FirstInvalid(files: seq<Upload>): (r: Option<nat>)
    ensures r.None? <==> AllValid(files, |files|)
    ensures r.Some? ==> r.value < |files| && CheckUpload(files[r.value]).Failure? && AllValid(files, r.value)
  {
    FirstInvalidIn(files, |files|)
  }

  /** The first of the first `n` uploads that fails its checks. */
  function FirstInvalidIn(files: seq<Upload>, n: nat): (r: Option<nat>)
    requires n <= |files|
    ensures r.None? <==> AllValid(files, n)
    ensures r.Some? ==> r.value < n && CheckUpload(files[r.value]).Failure? && AllValid(files, r.value)
  {
    if n == 0 then None
    else
      match FirstInvalidIn(files, n - 1)
      case Some(k) => Some(k)
      case None => if CheckUpload(files[n - 1]).Failure? then Some(n - 1) else None
  }

  /** What `storeImageFiles` returns for a batch. */
  function StoreOutcome(files: seq<Upload>, clock: nat -> nat): Result<seq<string>, Exception> {
    if |files| == 0 then Failure(ReportValidation(NoImages, None))
    else if |files| > MaxFiles then Failure(ReportValidation(TooManyImages, None))
    else
      match FirstInvalid(files)
      case Some(k) => Failure(CheckUpload(files[k]).error)
      case None => Success(Urls(files, clock, |files|))
  }

  /** The directory after `storeImageFiles`, whether it succeeds or not. */
  function ObjectsAfterStore(objects: map<string, seq<bv8>>, files: seq<Upload>, clock: nat -> nat)
    : map<string, seq<bv8>>
  {
    if |files| == 0 || |files| > MaxFiles then objects
    else
      match FirstInvalid(files)
      case Some(k) => Written(objects, files, clock, k)
      case None => Written(objects, files, clock, |files|)
  }

  /** A batch of no files or of more than six is refused and nothing is written. */
  lemma BatchLimits(objects: map<string, seq<bv8>>, files: seq<Upload>, clock: nat -> nat)
    ensures |files| == 0 ==> StoreOutcome(files, clock) == Failure(ReportValidation(NoImages, None))
    ensures |files| > MaxFiles ==> StoreOutcome(files, clock) == Failure(ReportValidation(TooManyImages, None))
    ensures (|files| == 0 || |files| > MaxFiles) ==> ObjectsAfterStore(objects, files, clock) == objects
    ensures StoreOutcome(files, clock).Success? ==> 1 <= |files| <= MaxFiles
  {
  }

  /**
   * A successful batch returns one URL per file, in order, pairwise different, each naming a
   * file that now holds that upload's bytes; a failed batch reports the first failing file,
   * with a validation error.
   */
  lemma {:induction false} StoreOutcomeMeaning(objects: map<string, seq<bv8>>, files: seq<Upload>, clock: nat -> nat)
    ensures StoreOutcome(files, clock).Success? <==> 1 <= |files| <= MaxFiles && AllValid(files, |files|)
    ensures StoreOutcome(files, clock).Success? ==>
              var urls := StoreOutcome(files, clock).value;
              |urls| == |files|
              && (forall i :: 0 <= i < |files| ==> urls[i] == ImageUrl(StoredKey(files[i], i, clock(i))))
              && (forall i, j :: 0 <= i < j < |files| ==> urls[i] != urls[j])
              && (forall i :: 0 <= i < |files| ==> DoesFileExist(ObjectsAfterStore(objects, files, clock), urls[i]))
    ensures StoreOutcome(files, clock).Failure? ==> StoreOutcome(files, clock).error.ReportValidation?
  {
    if StoreOutcome(files, clock).Success? {
      var urls := StoreOutcome(files, clock).value;
      forall i | 0 <= i < |files| ensures urls[i] == ImageUrl(StoredKey(files[i], i, clock(i))) {
        UrlsAt(files, clock, |files|, i);
      }
      forall i, j | 0 <= i < j < |files| ensures urls[i] != urls[j] {
        UrlsDistinct(files, clock, i, j);
      }
      forall i | 0 <= i < |files| ensures DoesFileExist(ObjectsAfterStore(objects, files, clock), urls[i]) {
        StoredUrlsExist(objects, files, clock, |files|, i);
      }
    }
  }

  /** Two stored URLs are equal only for the same index, timestamp and extension. */
  lemma ImageUrlInjective(f1: Upload, i1: nat, t1: nat, f2: Upload, i2: nat, t2: nat)
    requires CheckUpload(f1).Success? && CheckUpload(f2).Success?
    requires ImageUrl(StoredKey(f1, i1, t1)) == ImageUrl(StoredKey(f2, i2, t2))
    ensures i1 == i2 && t1 == t2 && UploadExtension(f1) == UploadExtension(f2)
  {
    var e1, e2 := UploadExtension(f1), UploadExtension(f2);
    var n1, n2 := UniqueFilename(t1, i1, e1), UniqueFilename(t2, i2, e2);
    assert ImageUrl(StoredKey(f1, i1, t1)) == UrlPrefix + (ReportsDir + n1);
    assert ImageUrl(StoredKey(f2, i2, t2)) == UrlPrefix + (ReportsDir + n2);
    CommonPrefix(UrlPrefix, ReportsDir + n1, ReportsDir + n2);
    CommonPrefix(ReportsDir, n1, n2);
    UniqueFilenameInjective(t1, i1, e1, t2, i2, e2);
  }

  /** Within one call every URL is different, because the index is part of the name. */
  lemma UrlsDistinct(files: seq<Upload>, clock: nat -> nat, i: nat, j: nat)
    requires AllValid(files, |files|) && i < j < |files|
    ensures Urls(files, clock, |files|)[i] != Urls(files, clock, |files|)[j]
  {
    var urls := Urls(files, clock, |files|);
    assert CheckUpload(files[i]).Success? && CheckUpload(files[j]).Success?;
    UrlsAt(files, clock, |files|, i);
    UrlsAt(files, clock, |files|, j);
    if urls[i] == urls[j] {
      ImageUrlInjective(files[i], i, clock(i), files[j], j, clock(j));
    }
  }

  /** The directory holding uploaded files, as paths relative to `uploads`. */
  class FileStore {
    var objects: map<string, seq<bv8>>

    constructor()
      ensures objects == map[]
    {
      objects := map[];
    }

    /** `storeImageFile`: checks one upload and, if it passes, writes it (replacing any old file). */
    method StoreImageFile(f: Upload, index: nat, timestamp: nat) returns (r: Result<string, Exception>)
      modifies this
      ensures match CheckUpload(f)
              case Failure(e) => r == Failure(e) && objects == old(objects)
              case Success(_) =>
                var key := StoredKey(f, index, timestamp);
                r == Success(ImageUrl(key)) && objects == old(objects)[key := f.bytes]
    {
      var check := CheckUpload(f);
      if check.Failure? {
        return Failure(check.error);
      }
      var key := ObjectKey(UniqueFilename(timestamp, index, check.value));
      objects := objects[key := f.bytes];
      r := Success(ImageUrl(key));
    }

    /**
     * `storeImageFiles`: rejects an empty or oversized batch before writing anything, then
     * stores the files in order. A file that fails its checks aborts the call; the files
     * written before it stay in the directory. `clock(i)` is the time read for the i-th file.
     */
    method StoreImageFiles(files: seq<Upload>, clock: nat -> nat) returns (r: Result<seq<string>, Exception>)
      modifies this
      ensures (r, objects) == (StoreOutcome(files, clock), ObjectsAfterStore(old(objects), files, clock))
    {
      if |files| == 0 {
        return Failure(ReportValidation(NoImages, None));
      }
      if |files| > MaxFiles {
        return Failure(ReportValidation(TooManyImages, None));
      }
      ghost var start := objects;
      var urls: seq<string> := [];
      var i := 0;
      while i < |files|
        invariant 0 <= i <= |files|
        invariant AllValid(files, i)
        invariant urls == Urls(files, clock, i)
        invariant objects == Written(start, files, clock, i)
      {
        var one := StoreImageFile(files[i], i, clock(i));
        if one.Failure? {
          OutcomeAtFailure(start, files, clock, i);
          return Failure(one.error);
        }
        StoreStep(start, files, clock, i);
        urls := urls + [one.value];
        i := i + 1;
      }
      OutcomeAtSuccess(start, files, clock);
      r := Success(urls);
    }

    /** `deleteFile`: false for a foreign URL; otherwise whether a file was there to delete. */
    method DeleteFile(url: string) returns (deleted: bool)
      modifies this
      ensures ExtractObjectKeyFromUrl(url).Failure? ==> !deleted && objects == old(objects)
      ensures ExtractObjectKeyFromUrl(url).Success? ==>
                var key := ExtractObjectKeyFromUrl(url).value;
                deleted == (key in old(objects)) && objects == old(objects) - {key}
    {
      var key := ExtractObjectKeyFromUrl(url);
      if key.Failure? {
        return false;
      }
      deleted := key.value in objects;
      objects := objects - {key.value};
    }
  }

  /** One more upload written: the URLs, the directory and the checked prefix each grow by it. */
  lemma StoreStep(objects: map<string, seq<bv8>>, files: seq<Upload>, clock: nat -> nat, i: nat)
    requires i < |files| && AllValid(files, i) && CheckUpload(files[i]).Success?
    ensures AllValid(files, i + 1)
    ensures Urls(files, clock, i + 1) == Urls(files, clock, i) + [ImageUrl(StoredKey(files[i], i, clock(i)))]
    ensures Written(objects, files, clock, i + 1)
            == Written(objects, files, clock, i)[StoredKey(files[i], i, clock(i)) := files[i].bytes]
  {
    StoredKeysAt(files, clock, i);
  }

  /** A batch of allowed size whose `i`-th file is the first to fail. */
  lemma OutcomeAtFailure(objects: map<string, seq<bv8>>, files: seq<Upload>, clock: nat -> nat, i: nat)
    requires 1 <= |files| <= MaxFiles
    requires i < |files| && AllValid(files, i) && CheckUpload(files[i]).Failure?
    ensures StoreOutcome(files, clock) == Failure(CheckUpload(files[i]).error)
    ensures ObjectsAfterStore(objects, files, clock) == Written(objects, files, clock, i)
  {
    FirstInvalidAt(files, i);
  }

  /** A batch of allowed size whose files all pass. */
  lemma OutcomeAtSuccess(objects: map<string, seq<bv8>>, files: seq<Upload>, clock: nat -> nat)
    requires 1 <= |files| <= MaxFiles && AllValid(files, |files|)
    ensures StoreOutcome(files, clock) == Success(Urls(files, clock, |files|))
    ensures ObjectsAfterStore(objects, files, clock) == Written(objects, files, clock, |files|)
  {
  }

  /** The first failing upload is the one at `i` when every earlier one passes. */
  lemma FirstInvalidAt(files: seq<Upload>, i: nat)
    requires i < |files| && AllValid(files, i) && CheckUpload(files[i]).Failure?
    ensures FirstInvalid(files) == Some(i)
  {
    assert !AllValid(files, |files|);
  }

  /** `doesFileExist`: false for a foreign URL instead of an exception. */
  predicate DoesFileExist(objects: map<string, seq<bv8>>, url: string) {
    match ExtractObjectKeyFromUrl(url)
    case Failure(_) => false
    case Success(key) => key in objects
  }

  /** Every URL the service hands out names a file that exists, until it is deleted. */
  lemma StoredUrlsExist(objects: map<string, seq<bv8>>, files: seq<Upload>, clock: nat -> nat, n: nat, i: nat)
    requires n <= |files| && i < n
    ensures DoesFileExist(Written(objects, files, clock, n), Urls(files, clock, n)[i])
  {
    UrlsAt(files, clock, n, i);
    ExtractInvertsImageUrl(StoredKey(files[i], i, clock(i)));
    WrittenHasKey(objects, files, clock, n, i);
  }

  lemma WrittenHasKey(objects: map<string, seq<bv8>>, files: seq<Upload>, clock: nat -> nat, n: nat, i: nat)
    requires n <= |files| && i < n
    ensures StoredKey(files[i], i, clock(i)) in Written(objects, files, clock, n)
  {
    StoredKeysAt(files, clock, i);
    WriteKeysHas(objects, StoredKeys(files, clock), files, n, i);
  }

  /** Within one valid batch, every file keeps its own bytes: no later file overwrites it. */
  lemma WrittenHoldsBytes(objects: map<string, seq<bv8>>, files: seq<Upload>, clock: nat -> nat, n: nat, i: nat)
    requires n <= |files| && i < n && AllValid(files, n)
    ensures StoredKey(files[i], i, clock(i)) in Written(objects, files, clock, n)
    ensures Written(objects, files, clock, n)[StoredKey(files[i], i, clock(i))] == files[i].bytes
  {
    var keys := StoredKeys(files, clock);
    forall j | i < j < n ensures keys[j] != keys[i] {
      StoredKeysAt(files, clock, i);
      StoredKeysAt(files, clock, j);
      StoredKeysDiffer(files[i], i, clock(i), files[j], j, clock(j));
    }
    StoredKeysAt(files, clock, i);
    WriteKeysHolds(objects, keys, files, n, i);
  }

  /** Files of different indices are written under different keys. */
  lemma StoredKeysDiffer(f1: Upload, i1: nat, t1: nat, f2: Upload, i2: nat, t2: nat)
    requires CheckUpload(f1).Success? && CheckUpload(f2).Success? && i1 != i2
    ensures StoredKey(f1, i1, t1) != StoredKey(f2, i2, t2)
  {
    if StoredKey(f1, i1, t1) == StoredKey(f2, i2, t2) {
      ImageUrlInjective(f1, i1, t1, f2, i2, t2);
    }
  }

  /** The extension of a name that ends in a lower-case extension is that extension. */
  lemma ExtensionOfSuffix(prefix: string, ext: string)
    requires |prefix| > 0 && |ext| >= 2 && ext[0] == '.' && '.' !in ext[1..] && Lower(ext) == ext
    ensures GetFileExtension(prefix + ext) == ext
  {
    var s := prefix + ext;
    var k := |prefix|;
    LastDotOfSuffix(prefix, ext);
    assert s[k..] == ext;
    assert GetFileExtension(s) == Lower(s[k..]);
  }

  /** The last dot of a name ending in ".x", where x has no dot, is the one in front of x. */
  lemma LastDotOfSuffix(prefix: string, ext: string)
    requires |ext| >= 1 && ext[0] == '.' && '.' !in ext[1..]
    ensures LastIndexOf(prefix + ext, '.') == |prefix|
  {
    var s := prefix + ext;
    var k := |prefix|;
    forall j | k < j < |s| ensures s[j] != '.' {
      assert s[j] == ext[1..][j - k - 1];
    }
    LastIndexOfAt(s, '.', k);
  }

  /** A stored key carries the checked extension of its upload. */
  lemma StoredKeyExtension(f: Upload, index: nat, timestamp: nat)
    requires CheckUpload(f).Success?
    ensures GetFileExtension(StoredKey(f, index, timestamp)) == UploadExtension(f)
    ensures IsValidImageExtension(GetFileExtension(StoredKey(f, index, timestamp)))
  {
    var e := UploadExtension(f);
    var prefix := ReportsDir + "report_" + NatToString(timestamp) + "_" + NatToString(index);
    assert StoredKey(f, index, timestamp) == prefix + e;
    var name := f.originalFilename.value;
    GetFileExtensionMeaning(name);
    LowerIdempotent(name[LastIndexOf(name, '.')..]);
    ExtensionOfSuffix(prefix, e);
  }

  /** The message of the exception `getFileFromStorage` throws for a missing file. */
  function NotFoundInStorage(key: string): string {
    "파일을 가져오는 중 오류가 발생했습니다: " + "파일을 찾을 수 없습니다: " + key
  }

  /** `getFileFromStorage`: the bytes and the content type of a stored file. */
  function GetFileFromStorage(objects: map<string, seq<bv8>>, key: string)
    : (r: Result<(seq<bv8>, string), Exception>)
    ensures r.Success? <==> key in objects
    ensures r.Success? ==> r.value == (objects[key], ContentTypeFromPath(key))
    ensures r.Failure? ==> r.error == Runtime(Some(NotFoundInStorage(key)))
  {
    if key in objects then Success((objects[key], ContentTypeFromPath(key)))
    else Failure(Runtime(Some(NotFoundInStorage(key))))
  }
}
