/**
 * The checks `uploadImage` runs on an upload descriptor before touching the image, in order,
 * each with its own error (image.php:264-300), and `hasFile` (image.php:221-226).
 */
module Intake {
  import opened Wrappers

  // PHP's upload status codes.
  const UploadErrOk := 0
  const UploadErrIniSize := 1
  const UploadErrFormSize := 2
  const UploadErrPartial := 3
  const UploadErrNoFile := 4

  /** The `error` entry of a descriptor: absent, an array (several files), or one status code. */
  datatype ErrorEntry = Missing | Several(codes: seq<int>) | Code(code: int)

  /**
   * One entry of the multipart `files` array. `name` and `clientType` are what the client
   * claims; `tmpName` is the server-side temporary file.
   */
  datatype Descriptor = Descriptor(
    name: string,
    clientType: string,
    tmpName: string,
    error: ErrorEntry,
    size: int)

  datatype UploadError =
    | NoAccess
    | NoFile
    | FileSizeExceeded
    | UnknownError
    | InvalidFormat
    | Failed(message: string)  // a raw message: an exception's text, or "Unknown" when writing fails

  /** The message the source enqueues for each error: a language key, or the raw text. */
  function Message(e: UploadError): (m: string)
    ensures e.Failed? ==> m == e.message
  {
    match e
    case NoAccess => "PLG_IMAGE_NOACCESS"
    case NoFile => "PLG_IMAGE_NO_FILE"
    case FileSizeExceeded => "PLG_IMAGE_FILESIZE_EXCEEDED"
    case UnknownError => "PLG_IMAGE_UNKNOWN_ERROR"
    case InvalidFormat => "PLG_IMAGE_INVALID_FORMAT"
    case Failed(text) => text
  }

  /** Accepted image types, by extension (image.php:29-33). */
  const ValidImageTypes: map<string, string> :=
    map["jpg" := "image/jpeg", "png" := "image/png", "gif" := "image/gif"]

  /** `array_search($mime, $this->validImageTypes, true)`: the extension listed for `mime`. */
  function ExtensionOf(mime: string): (r: Option<string>)
    ensures r.Some? ==> r.value in ValidImageTypes && ValidImageTypes[r.value] == mime
    ensures r.None? ==> forall ext :: ext in ValidImageTypes ==> ValidImageTypes[ext] != mime
  {
    if mime == "image/jpeg" then Some("jpg")
    else if mime == "image/png" then Some("png")
    else if mime == "image/gif" then Some("gif")
    else None
  }

  /** `hasFile`: the descriptor carries a file unless its status is "no file". */
  predicate HasFile(d: Descriptor) {
    d.error != Code(UploadErrNoFile)
  }

  /**
   * The intake checks with the allow-list the source evidently means: the descriptor's shape,
   * its status code, the size limit, then the sniffed MIME type. Success yields the extension.
   */
  function Validate(d: Descriptor, maxSize: int, mime: string): (r: Result<string, UploadError>)
    ensures r.Ok? <==> d.error == Code(UploadErrOk) && d.size <= maxSize && mime in ValidImageTypes.Values
    ensures r.Ok? ==> r.value in ValidImageTypes && ValidImageTypes[r.value] == mime
  {
    match d.error
    case Missing => Err(NoAccess)
    case Several(_) => Err(NoAccess)
    case Code(c) =>
      if c == UploadErrOk then
        if d.size > maxSize then Err(FileSizeExceeded)
        else match ExtensionOf(mime)
          case None => Err(InvalidFormat)
          case Some(ext) => Ok(ext)
      else if c == UploadErrNoFile then Err(NoFile)
      else if c == UploadErrFormSize then Err(FileSizeExceeded)
      else Err(UnknownError)
  }

  /**
   * Which check rejects an upload: the first that fails, in the source's order. A size above
   * the limit is reported only for a descriptor whose status is OK, and a foreign MIME type only
   * for one that also respects the limit.
   */
  lemma ValidateErrorOrder(d: Descriptor, maxSize: int, mime: string)
    ensures (d.error.Missing? || d.error.Several?) ==> Validate(d, maxSize, mime) == Err(NoAccess)
    ensures d.error == Code(UploadErrNoFile) ==> Validate(d, maxSize, mime) == Err(NoFile)
    ensures d.error == Code(UploadErrFormSize) ==> Validate(d, maxSize, mime) == Err(FileSizeExceeded)
    ensures d.error.Code? && d.error.code !in {UploadErrOk, UploadErrNoFile, UploadErrFormSize} ==>
              Validate(d, maxSize, mime) == Err(UnknownError)
    ensures d.error == Code(UploadErrOk) && d.size > maxSize ==> Validate(d, maxSize, mime) == Err(FileSizeExceeded)
    ensures d.error == Code(UploadErrOk) && d.size <= maxSize && mime !in ValidImageTypes.Values ==>
              Validate(d, maxSize, mime) == Err(InvalidFormat)
  {
  }

  /**
   * What the client claims about the file (its name and type) and where PHP parked it never
   * change the verdict: only the sniffed MIME type is trusted.
   */
  lemma ValidateIgnoresClientClaims(d: Descriptor, e: Descriptor, maxSize: int, mime: string)
    requires d.error == e.error && d.size == e.size
    ensures Validate(d, maxSize, mime) == Validate(e, maxSize, mime)
  {
  }

  /**
   * Validation reports NoFile exactly for the descriptors `hasFile` rejects; so on the
   * before-save path, which validates only descriptors with a file, NoFile never occurs.
   */
  lemma NoFileExactlyWithoutFile(d: Descriptor, maxSize: int, mime: string)
    ensures Validate(d, maxSize, mime) == Err(NoFile) <==> !HasFile(d)
  {
  }

  /**
   * The checks as image.php:297 writes them: the search goes through an undefined local
   * `$validImageTypes` instead of the allow-list, so under PHP 7 `array_search` yields null,
   * which is never `=== false`, and the MIME check rejects nothing. The "extension" is null,
   * written here as "".
   */
  function ValidateAsWritten(d: Descriptor, maxSize: int, mime: string): (r: Result<string, UploadError>)
    ensures r.Ok? <==> d.error == Code(UploadErrOk) && d.size <= maxSize
  {
    match d.error
    case Missing => Err(NoAccess)
    case Several(_) => Err(NoAccess)
    case Code(c) =>
      if c == UploadErrOk then
        if d.size > maxSize then Err(FileSizeExceeded)
        else Ok("")
      else if c == UploadErrNoFile then Err(NoFile)
      else if c == UploadErrFormSize then Err(FileSizeExceeded)
      else Err(UnknownError)
  }

  /** An HTML file passes the checks as written, where the intended allow-list rejects it. */
  lemma AsWrittenAcceptsHtml()
    ensures var d := Descriptor("photo.jpg", "image/jpeg", "/tmp/php1", Code(UploadErrOk), 100);
            ValidateAsWritten(d, 1000, "text/html").Ok? && Validate(d, 1000, "text/html") == Err(InvalidFormat)
  {
  }
}
